/** Bytes, and C strings in them. */
module Bytes {
  newtype byte = x: int | 0 <= x < 256

  predicate NoNull(s: seq<byte>) { forall i :: 0 <= i < |s| ==> s[i] != 0 }

  /** The string that starts a buffer, without its null byte. */
  function CString(s: seq<byte>): (r: seq<byte>)
    ensures NoNull(r)
  {
    if s == [] || s[0] == 0 then [] else [s[0]] + CString(s[1..])
  }

  lemma {:induction false} CStringIs(s: seq<byte>, n: nat)
    requires n < |s| && NoNull(s[..n]) && s[n] == 0
    ensures CString(s) == s[..n]
    decreases n
  {
    if n > 0 {
      assert s[0] == s[..n][0] && s[1..][..n - 1] == s[..n][1..];
      CStringIs(s[1..], n - 1);
      assert s[..n] == [s[0]] + s[1..][..n - 1];
    }
  }
}
