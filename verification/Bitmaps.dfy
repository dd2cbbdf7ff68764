/** Word-packed bitmaps (lib/kernel/bitmap.c), against an array of booleans. */
module Bitmaps {
  import opened Options
  import opened Power2
  import opened Bits

  const ELEM_BITS: nat := 32

  function ElemIdx(i: nat): nat { i / ELEM_BITS }

  function BitMask(i: nat): nat { Pow2(i % ELEM_BITS) }

  function ElemCnt(n: nat): nat { (n + ELEM_BITS - 1) / ELEM_BITS }

  // ----- what the operations mean on an array of booleans

  ghost predicate AllEqual(v: seq<bool>, start: nat, cnt: nat, value: bool)
    requires start + cnt <= |v|
  {
    forall i :: start <= i < start + cnt ==> v[i] == value
  }

  function SetRange(v: seq<bool>, start: nat, cnt: nat, value: bool): (r: seq<bool>)
    requires start + cnt <= |v|
    ensures |r| == |v|
    ensures forall i :: 0 <= i < |v| ==> r[i] == if start <= i < start + cnt then value else v[i]
  {
    v[..start] + seq(cnt, _ => value) + v[start + cnt..]
  }

  /** The lowest index at or after start where cnt consecutive bits all equal value. */
  ghost function FirstFit(v: seq<bool>, start: nat, cnt: nat, value: bool): (r: Option<nat>)
    ensures r.Some? ==> start <= r.value && r.value + cnt <= |v| && AllEqual(v, r.value, cnt, value)
    ensures forall i :: start <= i && i + cnt <= |v| && (r.None? || i < r.value) ==> !AllEqual(v, i, cnt, value)
    decreases |v| - start
  {
    if start + cnt > |v| then None
    else if AllEqual(v, start, cnt, value) then Some(start)
    else if start == |v| then None
    else FirstFit(v, start + 1, cnt, value)
  }

  lemma FirstFitStep(v: seq<bool>, i: nat, cnt: nat, value: bool)
    requires i + cnt <= |v|
    ensures FirstFit(v, i, cnt, value) == if AllEqual(v, i, cnt, value) then Some(i) else FirstFit(v, i + 1, cnt, value)
  {
    assert i == |v| ==> AllEqual(v, i, cnt, value);
  }

  lemma FirstFitNone(v: seq<bool>, i: nat, cnt: nat, value: bool)
    requires i + cnt > |v|
    ensures FirstFit(v, i, cnt, value) == None
  {
  }

  // ----- words and bits

  predicate Words(words: seq<nat>, n: nat) {
    |words| == ElemCnt(n) && forall k :: 0 <= k < |words| ==> words[k] < Pow2(32)
  }

  function BitAt(words: seq<nat>, i: nat): bool
    requires ElemIdx(i) < |words|
  {
    Bit(words[ElemIdx(i)], i % ELEM_BITS)
  }

  lemma IndexInside(n: nat, i: nat)
    requires i < n
    ensures ElemIdx(i) < ElemCnt(n)
  {
  }

  function Contents(words: seq<nat>, n: nat): (v: seq<bool>)
    requires Words(words, n)
    ensures |v| == n
    ensures forall i :: 0 <= i < n ==> ElemIdx(i) < |words| && v[i] == BitAt(words, i)
  {
    seq(n, i requires 0 <= i < n => BitAt(words, i))
  }

  lemma MaskFits(i: nat)
    ensures BitMask(i) < Pow2(32)
  {
    Pow2Monotone(i % ELEM_BITS, 31);
  }

  /** One word replaced by a value that differs from it in at most the bit for i. */
  lemma OneBitChanged(words: seq<nat>, n: nat, i: nat, w: nat, value: bool)
    requires Words(words, n) && i < n && w < Pow2(32)
    requires forall k | 0 <= k < ELEM_BITS :: Bit(w, k) == if k == i % ELEM_BITS then value else Bit(words[ElemIdx(i)], k)
    ensures ElemIdx(i) < |words| && Words(words[ElemIdx(i) := w], n)
    ensures Contents(words[ElemIdx(i) := w], n) == Contents(words, n)[i := value]
  {
    var words' := words[ElemIdx(i) := w];
    forall j | 0 <= j < n ensures BitAt(words', j) == if j == i then value else BitAt(words, j) {
      assert j == ElemIdx(j) * ELEM_BITS + j % ELEM_BITS;
      assert i == ElemIdx(i) * ELEM_BITS + i % ELEM_BITS;
    }
  }

  lemma MarkWord(words: seq<nat>, n: nat, i: nat)
    requires Words(words, n) && i < n
    ensures var w := Or(words[ElemIdx(i)], BitMask(i));
            Words(words[ElemIdx(i) := w], n) && Contents(words[ElemIdx(i) := w], n) == Contents(words, n)[i := true]
  {
    var w := Or(words[ElemIdx(i)], BitMask(i));
    MaskFits(i);
    OperatorsFit(32, words[ElemIdx(i)], BitMask(i));
    forall k | 0 <= k < ELEM_BITS ensures Bit(w, k) == if k == i % ELEM_BITS then true else Bit(words[ElemIdx(i)], k) {
      BitOr(words[ElemIdx(i)], BitMask(i), k);
      BitPow2(i % ELEM_BITS, k);
    }
    OneBitChanged(words, n, i, w, true);
  }

  lemma ResetWord(words: seq<nat>, n: nat, i: nat)
    requires Words(words, n) && i < n
    ensures BitMask(i) < Pow2(32)
    ensures var w := And(words[ElemIdx(i)], Not(32, BitMask(i)));
            Words(words[ElemIdx(i) := w], n) && Contents(words[ElemIdx(i) := w], n) == Contents(words, n)[i := false]
  {
    MaskFits(i);
    var w := And(words[ElemIdx(i)], Not(32, BitMask(i)));
    OperatorsFit(32, words[ElemIdx(i)], Not(32, BitMask(i)));
    forall k | 0 <= k < ELEM_BITS ensures Bit(w, k) == if k == i % ELEM_BITS then false else Bit(words[ElemIdx(i)], k) {
      BitAnd(words[ElemIdx(i)], Not(32, BitMask(i)), k);
      BitNot(32, BitMask(i), k);
      BitPow2(i % ELEM_BITS, k);
    }
    OneBitChanged(words, n, i, w, false);
  }

  lemma FlipWord(words: seq<nat>, n: nat, i: nat)
    requires Words(words, n) && i < n
    ensures var w := Xor(words[ElemIdx(i)], BitMask(i));
            Words(words[ElemIdx(i) := w], n) && Contents(words[ElemIdx(i) := w], n) == Contents(words, n)[i := !Contents(words, n)[i]]
  {
    var w := Xor(words[ElemIdx(i)], BitMask(i));
    MaskFits(i);
    OperatorsFit(32, words[ElemIdx(i)], BitMask(i));
    var flipped := !Bit(words[ElemIdx(i)], i % ELEM_BITS);
    forall k | 0 <= k < ELEM_BITS ensures Bit(w, k) == if k == i % ELEM_BITS then flipped else Bit(words[ElemIdx(i)], k) {
      BitXor(words[ElemIdx(i)], BitMask(i), k);
      BitPow2(i % ELEM_BITS, k);
    }
    OneBitChanged(words, n, i, w, flipped);
  }

  class Bitmap {
    const bitCnt: nat
    const bits: array<nat>

    ghost predicate Valid()
      reads this, bits
    {
      Words(bits[..], bitCnt)
    }

    ghost function View(): (v: seq<bool>)
      reads this, bits
      requires Valid()
      ensures |v| == bitCnt
    {
      Contents(bits[..], bitCnt)
    }

    /** bitmap_create, when its storage has been obtained. */
    constructor (n: nat)
      ensures Valid() && bitCnt == n && fresh(bits) && View() == seq(n, _ => false)
    {
      bitCnt := n;
      bits := new nat[ElemCnt(n)](_ => 0);
      new;
      forall i | 0 <= i < n ensures !View()[i] {
        IndexInside(n, i);
        BitZero(i % ELEM_BITS);
      }
    }

    method Mark(i: nat)
      requires Valid() && i < bitCnt
      modifies bits
      ensures Valid() && View() == old(View())[i := true]
    {
      ghost var words := bits[..];
      MarkWord(words, bitCnt, i);
      var idx, mask := ElemIdx(i), BitMask(i);
      bits[idx] := Or(bits[idx], mask);
      assert bits[..] == words[idx := Or(words[idx], mask)];
    }

    method Reset(i: nat)
      requires Valid() && i < bitCnt
      modifies bits
      ensures Valid() && View() == old(View())[i := false]
    {
      ghost var words := bits[..];
      ResetWord(words, bitCnt, i);
      var idx, mask := ElemIdx(i), BitMask(i);
      bits[idx] := And(bits[idx], Not(32, mask));
      assert bits[..] == words[idx := And(words[idx], Not(32, mask))];
    }

    method Flip(i: nat)
      requires Valid() && i < bitCnt
      modifies bits
      ensures Valid() && View() == old(View())[i := !old(View())[i]]
    {
      ghost var words := bits[..];
      FlipWord(words, bitCnt, i);
      var idx, mask := ElemIdx(i), BitMask(i);
      bits[idx] := Xor(bits[idx], mask);
      assert bits[..] == words[idx := Xor(words[idx], mask)];
    }

    method Test(i: nat) returns (b: bool)
      requires Valid() && i < bitCnt
      ensures b == View()[i]
    {
      IndexInside(bitCnt, i);
      AndPow2(bits[ElemIdx(i)], i % ELEM_BITS);
      b := And(bits[ElemIdx(i)], BitMask(i)) != 0;
    }

    method Set(i: nat, value: bool)
      requires Valid() && i < bitCnt
      modifies bits
      ensures Valid() && View() == old(View())[i := value]
    {
      if value {
        Mark(i);
      } else {
        Reset(i);
      }
    }

    method SetMultiple(start: nat, cnt: nat, value: bool)
      requires Valid() && start + cnt <= bitCnt
      modifies bits
      ensures Valid() && View() == SetRange(old(View()), start, cnt, value)
    {
      var i := 0;
      while i < cnt
        invariant i <= cnt && Valid() && View() == SetRange(old(View()), start, i, value)
      {
        Set(start + i, value);
        i := i + 1;
      }
    }

    method Contains(start: nat, cnt: nat, value: bool) returns (b: bool)
      requires Valid() && start + cnt <= bitCnt
      ensures b <==> exists i :: start <= i < start + cnt && View()[i] == value
    {
      var i := 0;
      while i < cnt
        invariant i <= cnt && forall j :: start <= j < start + i ==> View()[j] != value
      {
        var b := Test(start + i);
        if b == value {
          return true;
        }
        i := i + 1;
      }
      return false;
    }

    /** The first group of cnt bits at or after start that all equal value. */
    method Scan(start: nat, cnt: nat, value: bool) returns (r: Option<nat>)
      requires Valid() && start <= bitCnt
      ensures r == FirstFit(View(), start, cnt, value)
    {
      hide Words, Contents, Bitmap.Valid, FirstFit;
      ghost var v := View();
      if cnt <= bitCnt {
        var last := bitCnt - cnt;
        var i := start;
        while i <= last
          invariant start <= i && (start <= last + 1 ==> i <= last + 1)
          invariant FirstFit(v, i, cnt, value) == FirstFit(v, start, cnt, value)
        {
          var b := Contains(i, cnt, !value);
          FirstFitStep(v, i, cnt, value);
          if !b {
            return Some(i);
          }
          i := i + 1;
        }
        FirstFitNone(v, i, cnt, value);
      } else {
        FirstFitNone(v, start, cnt, value);
      }
      r := None;
    }

    method ScanAndFlip(start: nat, cnt: nat, value: bool) returns (r: Option<nat>)
      requires Valid() && start <= bitCnt
      modifies bits
      ensures Valid() && r == FirstFit(old(View()), start, cnt, value)
      ensures View() == if r.Some? then SetRange(old(View()), r.value, cnt, !value) else old(View())
    {
      r := Scan(start, cnt, value);
      if r.Some? {
        SetMultiple(r.value, cnt, !value);
      }
    }
  }
}
