/** Arithmetic over GF(2). A natural number stands for the sequence of its binary digits, so
    exclusive or is addition of polynomials and CarryLess is their product. */
module Gf2 {

  function Xor(a: nat, b: nat): nat
    decreases a + b
  {
    if a == 0 then b
    else if b == 0 then a
    else (a + b) % 2 + 2 * Xor(a / 2, b / 2)
  }

  function CarryLess(q: nat, g: nat): nat {
    if q == 0 then 0 else Xor(if q % 2 == 1 then g else 0, 2 * CarryLess(q / 2, g))
  }

  function Pow2(n: nat): (p: nat)
    ensures p > 0
  {
    if n == 0 then 1 else 2 * Pow2(n - 1)
  }

  // One binary digit at a time; every lemma below rests on these two views.
  lemma XorDigits(a: nat, b: nat)
    ensures Xor(a, b) % 2 == (a + b) % 2
    ensures Xor(a, b) / 2 == Xor(a / 2, b / 2)
  {
    if a != 0 && b != 0 {
      var (d, h) := ((a + b) % 2, Xor(a / 2, b / 2));
      assert Xor(a, b) == d + 2 * h;
      LastDigit(d, h);
    }
  }

  lemma LastDigit(d: nat, h: nat)
    requires d < 2
    ensures (d + 2 * h) % 2 == d && (d + 2 * h) / 2 == h
  {}

  lemma XorPrepend(i: nat, a: nat, j: nat, b: nat)
    requires i < 2 && j < 2
    ensures Xor(i + 2 * a, j + 2 * b) == (i + j) % 2 + 2 * Xor(a, b)
  {
    hide Xor;
    var x, y := i + 2 * a, j + 2 * b;
    assert x / 2 == a && x % 2 == i && y / 2 == b && y % 2 == j;
    XorDigits(x, y);
    assert (x + y) % 2 == (i + j) % 2;
    var z := Xor(x, y);
    assert z == z % 2 + 2 * (z / 2);
  }

  lemma XorIdentity(a: nat)
    ensures Xor(a, 0) == a == Xor(0, a)
  {}

  lemma {:induction false} XorCommutes(a: nat, b: nat)
    ensures Xor(a, b) == Xor(b, a)
    decreases a + b
  {
    if a != 0 && b != 0 {
      XorCommutes(a / 2, b / 2);
    }
  }

  lemma {:induction false} XorAssociates(a: nat, b: nat, c: nat)
    ensures Xor(Xor(a, b), c) == Xor(a, Xor(b, c))
    decreases a + b + c
  {
    hide Xor;
    if a == 0 || b == 0 || c == 0 {
      XorIdentity(a); XorIdentity(b); XorIdentity(c); XorIdentity(Xor(a, b)); XorIdentity(Xor(b, c));
    } else {
      var (i, a') := (a % 2, a / 2);
      var (j, b') := (b % 2, b / 2);
      var (k, c') := (c % 2, c / 2);
      PrependToSum(i, a', j, b', k, c');
      PrependToSum(j, b', k, c', i, a');
      XorCommutes(a, Xor(b, c));
      XorCommutes(a', Xor(b', c'));
      XorAssociates(a', b', c');
    }
  }

  lemma PrependToSum(i: nat, a: nat, j: nat, b: nat, k: nat, c: nat)
    requires i < 2 && j < 2 && k < 2
    ensures Xor(Xor(i + 2 * a, j + 2 * b), k + 2 * c) == (i + j + k) % 2 + 2 * Xor(Xor(a, b), c)
  {
    XorPrepend(i, a, j, b);
    XorPrepend((i + j) % 2, Xor(a, b), k, c);
    DigitSum(i, j, k);
  }

  lemma DigitSum(i: nat, j: nat, k: nat)
    requires i < 2 && j < 2 && k < 2
    ensures ((i + j) % 2 + k) % 2 == (i + j + k) % 2
  {}

  lemma {:induction false} XorSelf(a: nat)
    ensures Xor(a, a) == 0
  {
    if a != 0 {
      XorSelf(a / 2);
    }
  }

  lemma XorCancels(a: nat, b: nat)
    ensures Xor(Xor(a, b), b) == a
  {
    XorAssociates(a, b, b);
    XorSelf(b);
  }

  lemma XorZeroIffEqual(a: nat, b: nat)
    ensures Xor(a, b) == 0 <==> a == b
  {
    XorCancels(a, b);
    XorSelf(a);
  }

  // (a + b) + (c + d) = (a + c) + (b + d)
  lemma XorSwapsMiddle(a: nat, b: nat, c: nat, d: nat)
    ensures Xor(Xor(a, b), Xor(c, d)) == Xor(Xor(a, c), Xor(b, d))
  {
    XorAssociates(a, b, Xor(c, d));
    XorAssociates(b, c, d);
    XorCommutes(b, c);
    XorAssociates(c, b, d);
    XorAssociates(a, c, Xor(b, d));
  }

  lemma XorOfDoubles(a: nat, b: nat)
    ensures Xor(2 * a, 2 * b) == 2 * Xor(a, b)
  {
    hide Xor;
    XorPrepend(0, a, 0, b);
  }

  lemma {:induction false} XorBelow(a: nat, b: nat, n: nat)
    requires a < Pow2(n) && b < Pow2(n)
    ensures Xor(a, b) < Pow2(n)
  {
    if n > 0 {
      XorDigits(a, b);
      XorBelow(a / 2, b / 2, n - 1);
    }
  }

  // Digits that do not overlap are simply written side by side.
  lemma {:induction false} XorDisjoint(low: nat, high: nat, n: nat)
    requires low < Pow2(n)
    ensures Xor(low, Pow2(n) * high) == low + Pow2(n) * high
  {
    hide Xor;
    if n == 0 {
      XorIdentity(high);
    } else {
      var h := Pow2(n - 1) * high;
      var (i, l) := (low % 2, low / 2);
      assert Pow2(n) * high == 2 * h;
      XorPrepend(i, l, 0, h);
      XorDisjoint(l, high, n - 1);
    }
  }

  lemma {:induction false} Pow2Adds(m: nat, n: nat)
    ensures Pow2(m + n) == Pow2(m) * Pow2(n)
  {
    if m > 0 {
      Pow2Adds(m - 1, n);
    }
  }

  // Whether an odd number of binary digits is set.
  function Odd(a: nat): bool {
    if a == 0 then false else (a % 2 == 1) != Odd(a / 2)
  }

  lemma {:induction false} OddOfXor(a: nat, b: nat)
    ensures Odd(Xor(a, b)) == (Odd(a) != Odd(b))
    decreases a + b
  {
    hide Xor, Odd;
    if a == 0 || b == 0 {
      XorIdentity(a); XorIdentity(b); OddStep(0);
    } else {
      XorDigits(a, b);
      OddOfXor(a / 2, b / 2);
      OddStep(a); OddStep(b); OddStep(Xor(a, b));
    }
  }

  lemma OddStep(a: nat)
    ensures Odd(a) == ((a % 2 == 1) != Odd(a / 2))
    ensures !Odd(0)
  {}
}
