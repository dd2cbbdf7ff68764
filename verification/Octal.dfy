/** Octal fields: as printf's %0<width>o writes them (lib/stdio.c) and as ustar headers are parsed (lib/ustar.c). */
module Octal {
  import opened Options
  import opened Bytes

  const ZERO: byte := 48             // '0'
  const ULONG_MAX: nat := 0xFFFF_FFFF

  function Pow8(n: nat): (p: nat)
    ensures p > 0
  {
    if n == 0 then 1 else 8 * Pow8(n - 1)
  }

  function Digit(d: nat): byte
    requires d < 8
  {
    ZERO + d as byte
  }

  /** The last n octal digits of v, most significant first. */
  function Digits(v: nat, n: nat): (s: seq<byte>)
    ensures |s| == n && forall i :: 0 <= i < n ==> ZERO <= s[i] < ZERO + 8
  {
    if n == 0 then [] else Digits(v / 8, n - 1) + [Digit(v % 8)]
  }

  // ----- printing

  /** The first n digits a division loop produces, least significant first. */
  function ReversedDigits(v: nat, n: nat): (s: seq<byte>)
    ensures |s| == n
  {
    if n == 0 then [] else [Digit(v % 8)] + ReversedDigits(v / 8, n - 1)
  }

  function Backwards(s: seq<byte>): (r: seq<byte>)
    ensures |r| == |s| && forall i :: 0 <= i < |s| ==> r[i] == s[|s| - 1 - i]
  {
    seq(|s|, i requires 0 <= i < |s| => s[|s| - 1 - i])
  }

  /** v after k divisions. */
  function Shifted(v: nat, k: nat): nat {
    if k == 0 then v else Shifted(v / 8, k - 1)
  }

  lemma {:induction false} ShiftedStep(v: nat, k: nat)
    ensures Shifted(v, k) / 8 == Shifted(v, k + 1)
    ensures ReversedDigits(v, k + 1) == ReversedDigits(v, k) + [Digit(Shifted(v, k) % 8)]
    decreases k
  {
    if k > 0 {
      ShiftedStep(v / 8, k - 1);
    }
  }

  lemma {:induction false} ShiftedBound(v: nat, k: nat, n: nat)
    requires v < Pow8(n) && k <= n
    ensures Shifted(v, k) < Pow8(n - k)
    decreases k
  {
    if k > 0 {
      ShiftedBound(v / 8, k - 1, n - 1);
    }
  }

  /** The digits that are left once the value has run out are zeros. */
  lemma {:induction false} DigitsPadded(v: nat, k: nat, n: nat)
    requires k <= n && Shifted(v, k) == 0
    ensures Digits(v, n) == seq(n - k, _ => ZERO) + Backwards(ReversedDigits(v, k))
    decreases n
  {
    if n > 0 {
      if k == 0 {
        DigitsPadded(0, 0, n - 1);
        assert Digits(0, n) == Digits(0, n - 1) + [ZERO];
        assert seq(n, _ => ZERO) == seq(n - 1, _ => ZERO) + [ZERO];
      } else {
        DigitsPadded(v / 8, k - 1, n - 1);
        var r := ReversedDigits(v / 8, k - 1);
        assert Backwards([Digit(v % 8)] + r) == Backwards(r) + [Digit(v % 8)];
      }
    }
  }

  /** format_integer's first loops, for an unsigned octal conversion: digits are accumulated backwards, at least one. */
  method Accumulate(value: nat, width: nat, buf: array<byte>) returns (cp: nat)
    requires 0 < width <= buf.Length == 64 && value < Pow8(width)
    modifies buf
    ensures 0 < cp <= width && Shifted(value, cp) == 0 && buf[..cp] == ReversedDigits(value, cp)
  {
    hide Shifted, ReversedDigits, Pow8;
    var v: nat := value;
    cp := 0;
    NoneYet(value);
    while v > 0
      invariant cp <= width && v == Shifted(value, cp) && buf[..cp] == ReversedDigits(value, cp)
      decreases v
    {
      ShiftedBound(value, cp, width);
      PowZero(width - cp);
      ShiftedStep(value, cp);
      buf[cp] := Digit(v % 8);
      v, cp := v / 8, cp + 1;
    }
    if cp < 1 {
      ShiftedStep(value, cp);
      buf[cp] := ZERO;
      cp := cp + 1;
    }
  }

  lemma NoneYet(v: nat)
    ensures Shifted(v, 0) == v && ReversedDigits(v, 0) == []
  {
  }

  lemma PowZero(n: nat)
    ensures Pow8(n) > 1 ==> n > 0
  {
  }

  /** Its last loops: zeros to fill the width, then the digits. */
  method Emit(buf: array<byte>, cnt: nat, padCnt: nat) returns (s: seq<byte>)
    requires cnt <= buf.Length
    ensures s == seq(padCnt, _ => ZERO) + Backwards(buf[..cnt])
  {
    s := seq(padCnt, _ => ZERO);
    var cp := cnt;
    while cp > 0
      invariant 0 <= cp <= cnt
      invariant s == seq(padCnt, _ => ZERO) + Backwards(buf[..cnt])[..cnt - cp]
    {
      cp := cp - 1;
      s := s + [buf[cp]];
    }
  }

  /** The characters of an unsigned octal conversion with the 0 flag and a width that holds the value. */
  method FormatOctal(value: nat, width: nat) returns (s: seq<byte>)
    requires 0 < width <= 64 && value < Pow8(width)
    ensures s == Digits(value, width)
  {
    var buf := new byte[64];
    var cp := Accumulate(value, width, buf);
    DigitsPadded(value, cp, width);
    s := Emit(buf, cp, width - cp);
  }

  // ----- parsing

  /** parse_octal_field from offset ofs on, with the value so far. */
  function ParseFrom(s: seq<byte>, ofs: nat, value: nat): Option<nat>
    requires ofs <= |s|
    decreases |s| - ofs
  {
    if ofs == |s| then None
    else if ZERO <= s[ofs] < ZERO + 8 then
      if value > ULONG_MAX / 8 then None else ParseFrom(s, ofs + 1, value * 8 + (s[ofs] - ZERO) as nat)
    else if (s[ofs] == 32 || s[ofs] == 0) && ofs > 0 then Some(value)
    else None
  }

  method ParseOctalField(s: seq<byte>) returns (r: Option<nat>)
    ensures r == ParseFrom(s, 0, 0)
  {
    var value: nat, ofs: nat := 0, 0;
    while ofs < |s|
      invariant ofs <= |s| && ParseFrom(s, ofs, value) == ParseFrom(s, 0, 0)
    {
      var c := s[ofs];
      if ZERO <= c < ZERO + 8 {
        if value > ULONG_MAX / 8 {
          return None;
        }
        value := (c - ZERO) as nat + value * 8;
      } else if c == 32 || c == 0 {
        return if ofs > 0 then Some(value) else None;
      } else {
        return None;
      }
      ofs := ofs + 1;
    }
    r := None;
  }

  /** The value so far after reading k of the n digits of v. */
  lemma {:induction false} ReadDigits(v: nat, n: nat, k: nat)
    requires k <= n && v < Pow8(n)
    ensures |Digits(v, n)| == n
    ensures k < n ==> Shifted(v, n - k) * 8 + (Digits(v, n)[k] - ZERO) as nat == Shifted(v, n - k - 1)
    decreases n
  {
    if k < n {
      if k == n - 1 {
        assert Shifted(v, 1) == v / 8;
      } else {
        ReadDigits(v / 8, n - 1, k);
        assert Digits(v, n)[k] == Digits(v / 8, n - 1)[k];
      }
    }
  }

  lemma {:induction false} ShiftedBelow(v: nat, k: nat)
    ensures Shifted(v, k) <= v
    decreases k
  {
    if k > 0 {
      ShiftedBelow(v / 8, k - 1);
    }
  }

  /** What is printed is parsed back, when it fits an unsigned long. */
  lemma ParseDigits(v: nat, n: nat)
    requires 0 < n && v < Pow8(n) && v <= ULONG_MAX
    ensures ParseFrom(Digits(v, n) + [0], 0, 0) == Some(v)
  {
    ShiftedBound(v, n, n);
    ParseRest(v, n, 0);
  }

  lemma {:induction false} ParseRest(v: nat, n: nat, k: nat)
    requires 0 < n && k <= n && v < Pow8(n) && v <= ULONG_MAX
    ensures ParseFrom(Digits(v, n) + [0], k, Shifted(v, n - k)) == Some(v)
    decreases n - k
  {
    hide Digits;
    var s := Digits(v, n) + [0];
    ReadDigits(v, n, k);
    if k < n {
      ParseRest(v, n, k + 1);
      assert s[k] == Digits(v, n)[k];
      ShiftedBelow(v, n - k - 1);
    }
  }

  // ----- what is parsed

  predicate AllDigits(s: seq<byte>) {
    forall i :: 0 <= i < |s| ==> ZERO <= s[i] < ZERO + 8
  }

  function OctalValue(s: seq<byte>): nat
    requires AllDigits(s)
  {
    if s == [] then 0 else OctalValue(s[..|s| - 1]) * 8 + (s[|s| - 1] - ZERO) as nat
  }

  /** n digits, at least one, and then a space or a null byte; their value is v and fits an unsigned long. */
  predicate IsField(s: seq<byte>, n: nat, v: nat) {
    && 0 < n < |s| && AllDigits(s[..n]) && (s[n] == 32 || s[n] == 0)
    && OctalValue(s[..n]) == v <= ULONG_MAX
  }

  /** The fields that are accepted are exactly those, and with that value. */
  lemma ParseIs(s: seq<byte>)
    ensures ParseFrom(s, 0, 0).Some? ==> exists n: nat :: IsField(s, n, ParseFrom(s, 0, 0).value)
    ensures forall n: nat, v: nat :: IsField(s, n, v) ==> ParseFrom(s, 0, 0) == Some(v)
  {
    hide ParseFrom;
    assert s[..0] == [];
    ParseAt(s, 0);
  }

  lemma {:induction false} ParseAt(s: seq<byte>, ofs: nat)
    requires ofs <= |s| && AllDigits(s[..ofs]) && OctalValue(s[..ofs]) <= ULONG_MAX
    ensures var r := ParseFrom(s, ofs, OctalValue(s[..ofs]));
            && (r.Some? ==> exists n: nat :: IsField(s, n, r.value))
            && forall n: nat, v: nat :: ofs <= n && IsField(s, n, v) ==> r == Some(v)
    decreases |s| - ofs
  {
    hide OctalValue;
    if ofs < |s| {
      var c, value := s[ofs], OctalValue(s[..ofs]);
      if ZERO <= c < ZERO + 8 {
        OneMoreDigit(s, ofs);
        if value > ULONG_MAX / 8 {
          forall n: nat, v: nat | ofs < n ensures !IsField(s, n, v) {
            if IsField(s, n, v) {
              ValueGrows(s, ofs + 1, n);
            }
          }
        } else {
          ParseAt(s, ofs + 1);
        }
      } else {
        forall n: nat, v: nat | ofs < n ensures !IsField(s, n, v) {
          DigitsBefore(s, n, v);
        }
        if (c == 32 || c == 0) && ofs > 0 {
          assert IsField(s, ofs, value);
        }
      }
    }
  }

  lemma DigitsBefore(s: seq<byte>, n: nat, v: nat)
    ensures IsField(s, n, v) ==> forall i :: 0 <= i < n ==> ZERO <= s[i] < ZERO + 8
  {
    assert n <= |s| ==> forall i :: 0 <= i < n ==> s[..n][i] == s[i];
  }

  lemma OneMoreDigit(s: seq<byte>, ofs: nat)
    requires ofs < |s| && AllDigits(s[..ofs]) && ZERO <= s[ofs] < ZERO + 8
    ensures AllDigits(s[..ofs + 1]) && OctalValue(s[..ofs + 1]) == OctalValue(s[..ofs]) * 8 + (s[ofs] - ZERO) as nat
  {
    assert s[..ofs + 1][..ofs] == s[..ofs];
  }

  lemma {:induction false} ValueGrows(s: seq<byte>, k: nat, n: nat)
    requires k <= n <= |s| && AllDigits(s[..n]) && AllDigits(s[..k])
    ensures OctalValue(s[..k]) <= OctalValue(s[..n])
    decreases n
  {
    if k < n {
      assert s[..n][..n - 1] == s[..n - 1];
      ValueGrows(s, k, n - 1);
    }
  }
}
