/** Strict weak orders over sequences of distinct elements, and what it means for
    one sequence to be the stable sort of another.

    Nothing here knows about links or the heap: the list operations of KernelList
    and the queue policies of Mlfqs, Sjf and Timer are proved against this module. */
module StableOrder {

  ghost predicate Distinct<T>(s: seq<T>) {
    forall i, j :: 0 <= i < j < |s| ==> s[i] != s[j]
  }

  ghost function Elements<T>(s: seq<T>): set<T> {
    set x | x in s
  }

  /** `less` is a strict weak order on S: asymmetric, and "not less" is transitive. */
  ghost predicate StrictWeak<T>(less: (T, T) -> bool, S: set<T>) {
    && (forall x, y | x in S && y in S :: !(less(x, y) && less(y, x)))
    && (forall x, y, z | x in S && y in S && z in S :: !less(x, y) && !less(y, z) ==> !less(x, z))
  }

  /** The element x may come before y in a stable sort: it is smaller, or the two
      tie and x had the smaller original position. */
  ghost predicate Precedes<T>(less: (T, T) -> bool, pos: map<T, int>, x: T, y: T)
    requires x in pos && y in pos
  {
    less(x, y) || (!less(y, x) && pos[x] < pos[y])
  }

  ghost predicate Increasing<T>(less: (T, T) -> bool, pos: map<T, int>, s: seq<T>) {
    && (forall x | x in s :: x in pos)
    && (forall i, j :: 0 <= i < j < |s| ==> Precedes(less, pos, s[i], s[j]))
  }

  /** Index of the first occurrence of x. */
  ghost function Rank<T>(s: seq<T>, x: T): (r: nat)
    requires x in s
    ensures r < |s| && s[r] == x
  {
    if s[0] == x then 0 else 1 + Rank(s[1..], x)
  }

  ghost function Ranks<T>(s: seq<T>): (pos: map<T, int>)
    ensures pos.Keys == Elements(s)
  {
    map x | x in s :: Rank(s, x)
  }

  /** s is a permutation of orig, in nondecreasing order, ties in orig's order. */
  ghost predicate StablySorted<T>(less: (T, T) -> bool, orig: seq<T>, s: seq<T>) {
    multiset(s) == multiset(orig) && Increasing(less, Ranks(orig), s)
  }

  /** Inserts x before the first element it is less than. */
  function InsertOrdered<T>(less: (T, T) -> bool, s: seq<T>, x: T): seq<T> {
    if s == [] then [x]
    else if less(x, s[0]) then [x] + s
    else [s[0]] + InsertOrdered(less, s[1..], x)
  }

  /** The reference sort: insert the elements one at a time, in order. */
  function StableSort<T>(less: (T, T) -> bool, s: seq<T>): seq<T> {
    if s == [] then [] else InsertOrdered(less, StableSort(less, s[..|s| - 1]), s[|s| - 1])
  }

  lemma {:induction false} RankAt<T>(s: seq<T>, i: nat)
    requires Distinct(s) && i < |s|
    ensures Rank(s, s[i]) == i
  {
    var r := Rank(s, s[i]);
    assert s[r] == s[i];
  }

  lemma MultisetElements<T>(a: seq<T>, b: seq<T>)
    requires multiset(a) == multiset(b)
    ensures |a| == |b| && Elements(a) == Elements(b)
    ensures forall x :: x in a <==> x in b
  {
    assert |multiset(a)| == |multiset(b)|;
    forall x ensures x in a <==> x in b {
      assert x in a <==> x in multiset(a);
      assert x in b <==> x in multiset(b);
    }
  }

  lemma MultisetDistinct<T>(a: seq<T>, b: seq<T>)
    requires multiset(a) == multiset(b) && Distinct(a)
    ensures Distinct(b)
  {
    forall i, j | 0 <= i < j < |b| ensures b[i] != b[j] {
      if b[i] == b[j] {
        assert b == b[..i] + [b[i]] + b[i + 1..j] + [b[j]] + b[j + 1..];
        assert multiset(b)[b[i]] >= 2;
        DistinctMultiplicity(a, b[i]);
      }
    }
  }

  lemma {:induction false} DistinctMultiplicity<T>(a: seq<T>, x: T)
    requires Distinct(a)
    ensures multiset(a)[x] <= 1
  {
    if a != [] {
      assert a == a[..|a| - 1] + [a[|a| - 1]];
      DistinctMultiplicity(a[..|a| - 1], x);
      if x == a[|a| - 1] {
        assert x !in a[..|a| - 1];
      }
    }
  }

  lemma HeadPrecedes<T>(less: (T, T) -> bool, pos: map<T, int>, s: seq<T>, x: T)
    requires Increasing(less, pos, s) && x in s
    ensures x == s[0] || Precedes(less, pos, s[0], x)
  {
    var i :| 0 <= i < |s| && s[i] == x;
  }

  lemma IncreasingFirst<T>(less: (T, T) -> bool, pos: map<T, int>, a: seq<T>, b: seq<T>)
    requires a != [] && b != [] && a[0] in b && b[0] in a
    requires StrictWeak(less, Elements(a))
    requires Increasing(less, pos, a) && Increasing(less, pos, b)
    ensures a[0] == b[0]
  {
    HeadPrecedes(less, pos, a, b[0]);
    HeadPrecedes(less, pos, b, a[0]);
    assert a[0] in Elements(a) && b[0] in Elements(a);
  }

  lemma IncreasingTail<T>(less: (T, T) -> bool, pos: map<T, int>, s: seq<T>)
    requires Increasing(less, pos, s) && s != []
    ensures Increasing(less, pos, s[1..])
  {
  }

  /** Two increasing arrangements of the same elements are the same arrangement. */
  lemma {:induction false} IncreasingUnique<T>(less: (T, T) -> bool, pos: map<T, int>, a: seq<T>, b: seq<T>)
    requires multiset(a) == multiset(b)
    requires StrictWeak(less, Elements(a))
    requires Increasing(less, pos, a) && Increasing(less, pos, b)
    ensures a == b
    decreases |a|
  {
    hide StrictWeak, Increasing;
    MultisetElements(a, b);
    if a != [] {
      IncreasingFirst(less, pos, a, b);
      IncreasingTail(less, pos, a);
      IncreasingTail(less, pos, b);
      assert a == [a[0]] + a[1..] && b == [b[0]] + b[1..];
      assert multiset(a[1..]) == multiset(a) - multiset{a[0]};
      assert multiset(b[1..]) == multiset(b) - multiset{b[0]};
      StrictWeakSubset(less, Elements(a), Elements(a[1..]));
      IncreasingUnique(less, pos, a[1..], b[1..]);
    }
  }

  /** Where the insertion happens: in front of the first element that x is less than. */
  lemma {:induction false} InsertOrderedAt<T>(less: (T, T) -> bool, s: seq<T>, x: T, k: nat)
    requires k <= |s| && (forall i :: 0 <= i < k ==> !less(x, s[i])) && (k < |s| ==> less(x, s[k]))
    ensures InsertOrdered(less, s, x) == s[..k] + [x] + s[k..]
  {
    if k > 0 {
      InsertOrderedAt(less, s[1..], x, k - 1);
      assert s[..k] + [x] + s[k..] == [s[0]] + (s[1..][..k - 1] + [x] + s[1..][k - 1..]);
    }
  }

  lemma {:induction false} InsertOrderedElements<T>(less: (T, T) -> bool, s: seq<T>, x: T)
    ensures multiset(InsertOrdered(less, s, x)) == multiset(s) + multiset{x}
  {
    if s != [] {
      assert s == [s[0]] + s[1..];
      if !less(x, s[0]) {
        InsertOrderedElements(less, s[1..], x);
      }
    }
  }

  lemma StrictWeakSubset<T>(less: (T, T) -> bool, S: set<T>, S': set<T>)
    requires StrictWeak(less, S) && S' <= S
    ensures StrictWeak(less, S')
  {
  }

  lemma ConsIncreasing<T>(less: (T, T) -> bool, pos: map<T, int>, x: T, s: seq<T>)
    requires Increasing(less, pos, s) && x in pos
    requires forall y | y in s :: Precedes(less, pos, x, y)
    ensures Increasing(less, pos, [x] + s)
  {
    var r := [x] + s;
    forall i, j | 0 <= i < j < |r| ensures Precedes(less, pos, r[i], r[j]) {
      assert r[j] == s[j - 1] && r[j] in s;
      assert i > 0 ==> r[i] == s[i - 1];
    }
  }

  /** What x precedes directly it precedes in the whole arrangement. */
  lemma LessPrecedesAll<T>(less: (T, T) -> bool, pos: map<T, int>, s: seq<T>, x: T)
    requires Increasing(less, pos, s) && x in pos && s != [] && less(x, s[0])
    requires StrictWeak(less, Elements(s) + {x})
    ensures forall y | y in s :: Precedes(less, pos, x, y)
  {
    var S := Elements(s) + {x};
    forall y | y in s ensures Precedes(less, pos, x, y) {
      HeadPrecedes(less, pos, s, y);
      assert x in S && y in S && s[0] in S;
    }
  }

  /** Inserting an element younger than all others keeps a stable arrangement stable. */
  lemma {:induction false} InsertOrderedIncreasing<T>(less: (T, T) -> bool, pos: map<T, int>, s: seq<T>, x: T)
    requires Increasing(less, pos, s) && x in pos
    requires forall y | y in s :: pos[y] < pos[x]
    requires StrictWeak(less, Elements(s) + {x})
    ensures Increasing(less, pos, InsertOrdered(less, s, x))
  {
    if s != [] {
      if less(x, s[0]) {
        LessPrecedesAll(less, pos, s, x);
        ConsIncreasing(less, pos, x, s);
      } else {
        var t := InsertOrdered(less, s[1..], x);
        StrictWeakSubset(less, Elements(s) + {x}, Elements(s[1..]) + {x});
        InsertOrderedIncreasing(less, pos, s[1..], x);
        InsertOrderedElements(less, s[1..], x);
        forall y | y in t ensures Precedes(less, pos, s[0], y) {
          assert y in multiset(t);
          if y != x {
            assert y in s[1..];
            HeadPrecedes(less, pos, s, y);
          }
        }
        ConsIncreasing(less, pos, s[0], t);
      }
    }
  }

  lemma {:induction false} StableSortElements<T>(less: (T, T) -> bool, s: seq<T>)
    ensures multiset(StableSort(less, s)) == multiset(s)
  {
    if s != [] {
      var n := |s| - 1;
      assert s == s[..n] + [s[n]];
      StableSortElements(less, s[..n]);
      InsertOrderedElements(less, StableSort(less, s[..n]), s[n]);
    }
  }

  lemma {:induction false} StableSortIncreasing<T>(less: (T, T) -> bool, pos: map<T, int>, s: seq<T>)
    requires StrictWeak(less, Elements(s))
    requires forall x | x in s :: x in pos
    requires forall i, j :: 0 <= i < j < |s| ==> pos[s[i]] < pos[s[j]]
    ensures Increasing(less, pos, StableSort(less, s))
  {
    if s != [] {
      var n := |s| - 1;
      var p := s[..n];
      var t := StableSort(less, p);
      StrictWeakSubset(less, Elements(s), Elements(p));
      StableSortIncreasing(less, pos, p);
      StableSortElements(less, p);
      MultisetElements(t, p);
      StrictWeakSubset(less, Elements(s), Elements(t) + {s[n]});
      forall y | y in t ensures pos[y] < pos[s[n]] {
        assert y in p;
      }
      InsertOrderedIncreasing(less, pos, t, s[n]);
    }
  }

  /** The reference sort is the one and only stable sort of a sequence. */
  lemma StableSortUnique<T>(less: (T, T) -> bool, orig: seq<T>, s: seq<T>)
    requires Distinct(orig) && StrictWeak(less, Elements(orig))
    ensures StablySorted(less, orig, s) <==> s == StableSort(less, orig)
  {
    forall i | 0 <= i < |orig| ensures Ranks(orig)[orig[i]] == i {
      RankAt(orig, i);
    }
    StableSortElements(less, orig);
    StableSortIncreasing(less, Ranks(orig), orig);
    if StablySorted(less, orig, s) {
      MultisetElements(s, orig);
      IncreasingUnique(less, Ranks(orig), s, StableSort(less, orig));
    }
  }

  /** Sorting a sorted sequence changes nothing. */
  lemma StableSortIdempotent<T>(less: (T, T) -> bool, s: seq<T>)
    requires Distinct(s) && StrictWeak(less, Elements(s))
    ensures StableSort(less, StableSort(less, s)) == StableSort(less, s)
  {
    var t := StableSort(less, s);
    StableSortUnique(less, s, t);
    MultisetDistinct(s, t);
    MultisetElements(s, t);
    forall i, j | 0 <= i < j < |t| ensures Precedes(less, Ranks(t), t[i], t[j]) {
      RankAt(t, i);
      RankAt(t, j);
      assert Precedes(less, Ranks(s), t[i], t[j]);
    }
    StableSortUnique(less, t, t);
  }

  /** The head of the stable sort: nothing is less than it, and it is the first of those that tie. */
  lemma StableSortHead<T>(less: (T, T) -> bool, s: seq<T>)
    requires s != [] && Distinct(s) && StrictWeak(less, Elements(s))
    ensures var t := StableSort(less, s);
            |t| == |s| && t[0] in s && forall x | x in s && x != t[0] :: Precedes(less, Ranks(s), t[0], x)
  {
    var t := StableSort(less, s);
    StableSortUnique(less, s, t);
    MultisetElements(s, t);
    forall x | x in s && x != t[0] ensures Precedes(less, Ranks(s), t[0], x) {
      HeadPrecedes(less, Ranks(s), t, x);
    }
  }
}
