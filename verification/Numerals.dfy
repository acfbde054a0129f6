/** Decimal numerals as printf writes them. */
module Numerals {
  import opened Bytes

  const ZERO: byte := 48

  function Decimal(v: nat): (s: seq<byte>)
    ensures |s| >= 1 && forall c :: c in s ==> ZERO <= c <= ZERO + 9
  {
    if v < 10 then [ZERO + v] else Decimal(v / 10) + [ZERO + v % 10]
  }

  function Pow10(n: nat): nat {
    if n == 0 then 1 else 10 * Pow10(n - 1)
  }

  lemma {:induction false} WidthIff(v: nat, n: nat)
    requires n >= 1
    ensures |Decimal(v)| <= n <==> v < Pow10(n)
  {
    if v >= 10 {
      if n == 1 {
        assert Pow10(1) == 10;
      } else {
        WidthIff(v / 10, n - 1);
      }
    } else {
      Pow10AtLeastTen(n);
    }
  }

  lemma {:induction false} Pow10AtLeastTen(n: nat)
    requires n >= 1
    ensures Pow10(n) >= 10
  {
    if n > 1 {
      Pow10AtLeastTen(n - 1);
    }
  }

  function Zeros(n: nat): (s: seq<byte>)
    ensures |s| == n && forall c :: c in s ==> c == ZERO
  {
    if n == 0 then [] else [ZERO] + Zeros(n - 1)
  }

  // printf %0<width>u: at least width digits.
  function ZeroPadded(v: nat, width: nat): (s: seq<byte>)
    ensures |s| >= width && |s| >= |Decimal(v)|
    ensures |s| == width <==> |Decimal(v)| <= width
  {
    if |Decimal(v)| >= width then Decimal(v) else Zeros(width - |Decimal(v)|) + Decimal(v)
  }

  // The number a string of digits denotes, with acc in front.
  function Value(acc: nat, s: seq<byte>): nat
    decreases |s|
  {
    if s == [] then acc else Value(10 * acc + (if s[0] < ZERO then 0 else s[0] - ZERO), s[1..])
  }

  lemma {:induction false} ValueAppend(acc: nat, a: seq<byte>, b: seq<byte>)
    ensures Value(acc, a + b) == Value(Value(acc, a), b)
    decreases |a|
  {
    if a == [] {
      assert a + b == b;
    } else {
      assert (a + b)[0] == a[0] && (a + b)[1..] == a[1..] + b;
      ValueAppend(10 * acc + (if a[0] < ZERO then 0 else a[0] - ZERO), a[1..], b);
    }
  }

  lemma {:induction false} ValueOfZeros(n: nat)
    ensures Value(0, Zeros(n)) == 0
  {
    if n > 0 {
      assert Zeros(n)[1..] == Zeros(n - 1);
      ValueOfZeros(n - 1);
    }
  }

  lemma {:induction false} ValueOfDecimal(v: nat)
    ensures Value(0, Decimal(v)) == v
  {
    if v < 10 {
      assert Value(0, [ZERO + v]) == Value(v, []);
    } else {
      ValueOfDecimal(v / 10);
      ValueAppend(0, Decimal(v / 10), [ZERO + v % 10]);
      assert Value(v / 10, [ZERO + v % 10]) == Value(10 * (v / 10) + v % 10, []);
    }
  }

  /** Padding with zeros does not change the number. */
  lemma ValueOfZeroPadded(v: nat, width: nat)
    ensures Value(0, ZeroPadded(v, width)) == v
  {
    ValueOfDecimal(v);
    if |Decimal(v)| < width {
      var z := Zeros(width - |Decimal(v)|);
      ValueAppend(0, z, Decimal(v));
      ValueOfZeros(|z|);
    }
  }
}
