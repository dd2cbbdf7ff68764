/** list_remove (lib/kernel/list.c), for lists held as values. */
module Lists {
  import opened StableOrder

  function Without<E(==, !new)>(s: seq<E>, e: E): (r: seq<E>)
    ensures forall x :: x in r <==> x in s && x != e
    ensures Distinct(s) ==> Distinct(r)
  {
    if s == [] then []
    else
      var rest := Without(s[1..], e);
      assert Distinct(s) ==> Distinct(s[1..]) && s[0] !in s[1..];
      if s[0] == e then rest else [s[0]] + rest
  }
}
