/** The CRC-16 of MODBUS over Serial Line V1.02, section 6.2.2, as the gateway computes it:
    a 16-bit register, initially 0xFFFF, that absorbs one octet at a time, least significant
    bit first, under the reflected generator 0xA001. */
module Crc16 {
  import opened Bytes
  import opened Gf2

  const INIT: nat := 0xFFFF
  const GENERATOR: nat := 0xA001

  // One turn of the inner loop. Right shift and the test of bit 0 are / 2 and % 2.
  function Shift(c: nat): nat {
    if c % 2 == 1 then Xor(c / 2, GENERATOR) else c / 2
  }

  function Shifts(c: nat, n: nat): nat
    decreases n
  {
    if n == 0 then c else Shifts(Shift(c), n - 1)
  }

  function Absorb(c: nat, b: byte): nat {
    Shifts(Xor(c, b), 8)
  }

  function CrcFrom(c: nat, data: seq<byte>): nat
    decreases |data|
  {
    if data == [] then c else CrcFrom(Absorb(c, data[0]), data[1..])
  }

  function Crc(data: seq<byte>): nat {
    CrcFrom(INIT, data)
  }

  /** rs232_crc16: two nested loops over one register. */
  method Compute(data: array<byte>, len: nat) returns (crc: nat)
    requires len <= data.Length
    ensures crc == Crc(data[..len])
    ensures crc < 0x1_0000
  {
    hide Xor;
    crc := INIT;
    assert data[0..len] == data[..len];
    for i := 0 to len
      invariant CrcFrom(crc, data[i..len]) == Crc(data[..len])
    {
      ghost var before := crc;
      assert data[i..len][0] == data[i] && data[i..len][1..] == data[i + 1..len];
      crc := Xor(crc, data[i]);
      for b := 0 to 8
        invariant Shifts(crc, 8 - b) == Absorb(before, data[i])
      {
        if crc % 2 == 1 {
          crc := Xor(crc / 2, GENERATOR);
        } else {
          crc := crc / 2;
        }
      }
    }
    CrcIsAWord(data[..len]);
  }

  lemma {:induction false} CrcFromAppend(c: nat, a: seq<byte>, b: seq<byte>)
    ensures CrcFrom(c, a + b) == CrcFrom(CrcFrom(c, a), b)
    decreases |a|
  {
    hide Xor;
    if a == [] {
      assert a + b == b;
    } else {
      assert (a + b)[0] == a[0] && (a + b)[1..] == a[1..] + b;
      CrcFromAppend(Absorb(c, a[0]), a[1..], b);
    }
  }

  // --- The shift is a linear bijection on 16-bit words ---

  lemma WordBound()
    ensures Pow2(8) == 256 && Pow2(16) == 0x1_0000
  {
    assert Pow2(4) == 16;
    Pow2Adds(4, 4);
    Pow2Adds(8, 8);
  }

  lemma ShiftIsAWord(c: nat)
    requires c < 0x1_0000
    ensures Shift(c) < 0x1_0000
  {
    WordBound();
    XorBelow(c / 2, GENERATOR, 16);
  }

  lemma {:induction false} ShiftsIsAWord(c: nat, n: nat)
    requires c < 0x1_0000
    ensures Shifts(c, n) < 0x1_0000
    decreases n
  {
    if n > 0 {
      ShiftIsAWord(c);
      ShiftsIsAWord(Shift(c), n - 1);
    }
  }

  lemma {:induction false} CrcFromIsAWord(c: nat, data: seq<byte>)
    requires c < 0x1_0000
    ensures CrcFrom(c, data) < 0x1_0000
    decreases |data|
  {
    if data != [] {
      WordBound();
      XorBelow(c, data[0], 16);
      ShiftsIsAWord(Xor(c, data[0]), 8);
      CrcFromIsAWord(Absorb(c, data[0]), data[1..]);
    }
  }

  lemma CrcIsAWord(data: seq<byte>)
    ensures Crc(data) < 0x1_0000
  {
    CrcFromIsAWord(INIT, data);
  }

  lemma ShiftLinear(a: nat, b: nat)
    ensures Shift(Xor(a, b)) == Xor(Shift(a), Shift(b))
  {
    hide Xor;
    XorDigits(a, b);
    var x, y := a / 2, b / 2;
    if a % 2 == 1 && b % 2 == 1 {
      XorSwapsMiddle(x, GENERATOR, y, GENERATOR);
      XorSelf(GENERATOR);
      XorIdentity(Xor(x, y));
    } else if a % 2 == 1 {
      XorAssociates(x, GENERATOR, y);
      XorCommutes(GENERATOR, y);
      XorAssociates(x, y, GENERATOR);
    } else if b % 2 == 1 {
      XorAssociates(x, y, GENERATOR);
    }
  }

  lemma {:induction false} ShiftsLinear(a: nat, b: nat, n: nat)
    ensures Shifts(Xor(a, b), n) == Xor(Shifts(a, n), Shifts(b, n))
    decreases n
  {
    hide Xor;
    if n > 0 {
      ShiftLinear(a, b);
      ShiftsLinear(Shift(a), Shift(b), n - 1);
    }
  }

  // No word but zero is ever shifted to zero.
  lemma {:induction false} ShiftsKernel(c: nat, n: nat)
    requires 0 < c < 0x1_0000
    ensures Shifts(c, n) > 0
    decreases n
  {
    if n > 0 {
      if Shift(c) == 0 {
        XorZeroIffEqual(c / 2, GENERATOR);
        assert false;
      }
      ShiftIsAWord(c);
      ShiftsKernel(Shift(c), n - 1);
    }
  }

  /** Being linear with trivial kernel, n shifts are injective on 16-bit words, and so, the
      words being finitely many, a permutation of them. */
  lemma ShiftsInjective(a: nat, b: nat, n: nat)
    requires a < 0x1_0000 && b < 0x1_0000
    ensures Shifts(a, n) == Shifts(b, n) <==> a == b
  {
    hide Xor;
    if a != b {
      WordBound();
      XorBelow(a, b, 16);
      XorZeroIffEqual(a, b);
      ShiftsKernel(Xor(a, b), n);
      ShiftsLinear(a, b, n);
      XorZeroIffEqual(Shifts(a, n), Shifts(b, n));
    }
  }

  lemma DoublePower(c: nat, n: nat)
    requires n > 0
    ensures Pow2(n) * c == 2 * (Pow2(n - 1) * c)
  {}

  lemma {:induction false} ShiftsOfMultiple(c: nat, n: nat)
    ensures Shifts(Pow2(n) * c, n) == c
  {
    hide Pow2;
    if n > 0 {
      DoublePower(c, n);
      ShiftsOfMultiple(c, n - 1);
    } else {
      PowersOfNothing();
    }
  }

  lemma {:induction false} ShiftsAdd(c: nat, m: nat, n: nat)
    ensures Shifts(c, m + n) == Shifts(Shifts(c, m), n)
    decreases m
  {
    if m > 0 {
      ShiftsAdd(Shift(c), m - 1, n);
    }
  }

  // --- The register as polynomial division ---

  // The digits of a message in the order the line carries them: octet 0 first, bit 0 first.
  function Digits(m: seq<byte>): nat {
    if m == [] then 0 else m[0] + 256 * Digits(m[1..])
  }

  /** Absorbing octet by octet is shifting all the digits of the message out of the register at once. */
  lemma {:induction false} CrcFromIsShifts(c: nat, m: seq<byte>)
    ensures CrcFrom(c, m) == Shifts(Xor(c, Digits(m)), 8 * |m|)
    decreases |m|
  {
    hide Xor;
    if m == [] {
      XorIdentity(c);
    } else {
      var (b, rest) := (m[0], Digits(m[1..]));
      WordBound();
      XorDisjoint(b, rest, 8);
      XorAssociates(c, b, 256 * rest);
      ShiftsLinear(Xor(c, b), 256 * rest, 8);
      ShiftsOfMultiple(rest, 8);
      CrcFromIsShifts(Absorb(c, b), m[1..]);
      ShiftsAdd(Xor(c, Digits(m)), 8, 8 * |m[1..]|);
    }
  }

  // The full generator x^16 + x^15 + x^2 + 1 in the same reflected order, lowest digit first.
  const FULL_GENERATOR: nat := 0x1_4003

  /** r is the remainder and q the quotient of dividing d, n digits of it, by the generator.
      Digit k of d is the coefficient of x^(n+15-k), so the remainder sits in the high digits. */
  ghost predicate Divides(d: nat, n: nat, q: nat, r: nat) {
    q < Pow2(n) && d == Xor(CarryLess(q, 0x1_4003), Pow2(n) * r)
  }

  lemma {:induction false} DivisionExists(d: nat, n: nat) returns (q: nat)
    ensures Divides(d, n, q, Shifts(d, n))
    decreases n
  {
    hide Xor;
    if n == 0 {
      q := 0;
      XorIdentity(d);
    } else {
      var q' := DivisionExists(Shift(d), n - 1);
      var (product, high) := (CarryLess(q', FULL_GENERATOR), Pow2(n - 1) * Shifts(d, n));
      assert Pow2(n) * Shifts(d, n) == 2 * high;
      q := 2 * q' + d % 2;
      assert q % 2 == d % 2 && q / 2 == q';
      XorOfDoubles(product, high);
      if d % 2 == 1 {
        UndoOddShift(d);
        XorAssociates(FULL_GENERATOR, 2 * product, 2 * high);
      } else {
        XorIdentity(2 * product);
      }
    }
  }

  lemma UndoOddShift(d: nat)
    requires d % 2 == 1
    ensures d == Xor(FULL_GENERATOR, 2 * Shift(d))
  {
    hide Xor;
    var s := Shift(d);
    XorPrepend(1, GENERATOR, 0, s);
    XorCommutes(GENERATOR, s);
    XorCancels(d / 2, GENERATOR);
  }

  lemma {:induction false} DivisionUnique(d: nat, n: nat, q: nat, r: nat)
    requires Divides(d, n, q, r)
    ensures r == Shifts(d, n)
    decreases n
  {
    hide Xor;
    if n == 0 {
      XorIdentity(r);
    } else {
      var (product, high) := (CarryLess(q / 2, FULL_GENERATOR), Pow2(n - 1) * r);
      assert Pow2(n) * r == 2 * high;
      XorOfDoubles(product, high);
      if q % 2 == 1 {
        XorAssociates(FULL_GENERATOR, 2 * product, 2 * high);
        assert d == Xor(FULL_GENERATOR, 2 * Xor(product, high));
        XorPrepend(1, GENERATOR, 0, Xor(product, high));
        assert d % 2 == 1 && d / 2 == Xor(GENERATOR, Xor(product, high));
        XorCommutes(GENERATOR, Xor(product, high));
        XorCancels(Xor(product, high), GENERATOR);
      } else {
        XorIdentity(2 * product);
        assert d == 2 * Xor(product, high);
      }
      assert Shift(d) == Xor(product, high);
      DivisionUnique(Shift(d), n - 1, q / 2, r);
    }
  }

  /** The bit loop computes the remainder of polynomial division over GF(2): it is the one and
      only r for which the message, with its first 16 digits inverted, is a multiple of the
      generator plus r. */
  lemma CrcIsTheRemainder(m: seq<byte>, r: nat)
    ensures (exists q :: Divides(Xor(0xFFFF, Digits(m)), 8 * |m|, q, r)) <==> r == Crc(m)
  {
    hide Xor;
    var (d, n) := (Xor(INIT, Digits(m)), 8 * |m|);
    CrcFromIsShifts(INIT, m);
    if q :| Divides(d, n, q, r) {
      DivisionUnique(d, n, q, r);
    }
    if r == Crc(m) {
      var q := DivisionExists(d, n);
    }
  }

  // --- Appending the check octets ---

  /** A message followed by two octets has check value zero exactly when those octets are its
      own check value, low byte first. */
  lemma CheckValueZeroIff(m: seq<byte>, x: byte, y: byte)
    ensures Crc(m + [x, y]) == 0 <==> x == Crc(m) % 256 && y == Crc(m) / 256
  {
    hide Xor;
    var c := Crc(m);
    CrcIsAWord(m);
    CrcFromAppend(INIT, m, [x, y]);
    CrcFromIsShifts(c, [x, y]);
    var tail := Digits([x, y]);
    assert tail == x + 256 * y by { assert [x, y][1..] == [y]; assert Digits([y]) == y; }
    WordBound();
    XorBelow(c, tail, 16);
    ShiftsInjective(Xor(c, tail), 0, 16);
    ShiftsOfMultiple(0, 16);
    XorZeroIffEqual(c, tail);
  }

  // --- Error detection ---

  /** Two equally long messages whose digits differ by a burst of at most 16 consecutive
      positions never share a check value, wherever the burst starts. */
  lemma BurstsDetected(m1: seq<byte>, m2: seq<byte>, at: nat, burst: nat)
    requires |m1| == |m2| && at <= 8 * |m1|
    requires Xor(Digits(m1), Digits(m2)) == Pow2(at) * burst && 0 < burst < 0x1_0000
    ensures Crc(m1) != Crc(m2)
  {
    hide Xor, Pow2, Shifts, Digits;
    var (n, d1, d2) := (8 * |m1|, Digits(m1), Digits(m2));
    CrcFromIsShifts(INIT, m1);
    CrcFromIsShifts(INIT, m2);
    ShiftsLinear(Xor(INIT, d1), Xor(INIT, d2), n);
    XorSwapsMiddle(INIT, d1, INIT, d2);
    XorSelf(INIT);
    XorIdentity(Xor(d1, d2));
    ShiftsOfMultiple(burst, at);
    ShiftsAdd(Pow2(at) * burst, at, n - at);
    ShiftsKernel(burst, n - at);
    XorZeroIffEqual(Crc(m1), Crc(m2));
  }

  lemma PowersOfNothing()
    ensures Pow2(0) == 1 && Digits([]) == 0
  {}

  lemma DigitsOfFirst(m: seq<byte>)
    requires m != []
    ensures Digits(m) == m[0] + 256 * Digits(m[1..])
  {}

  lemma Regroup(first: nat, d: nat, p: nat, more: nat)
    ensures first + 256 * (d + p * more) == first + 256 * d + 256 * p * more
  {}

  lemma {:induction false} DigitsAppend(a: seq<byte>, b: seq<byte>)
    ensures Digits(a) < Pow2(8 * |a|)
    ensures Digits(a + b) == Digits(a) + Pow2(8 * |a|) * Digits(b)
    ensures Digits(a + b) == Xor(Digits(a), Pow2(8 * |a|) * Digits(b))
  {
    hide Xor, Pow2, Digits;
    PowersOfNothing();
    if a == [] {
      assert a + b == b;
    } else {
      var (d, p) := (Digits(a[1..]), Pow2(8 * |a[1..]|));
      assert (a + b)[0] == a[0] && (a + b)[1..] == a[1..] + b;
      DigitsAppend(a[1..], b);
      DigitsOfFirst(a);
      DigitsOfFirst(a + b);
      WordBound();
      Pow2Adds(8, 8 * |a[1..]|);
      assert Pow2(8 * |a|) == 256 * p;
      Regroup(a[0], d, p, Digits(b));
    }
    XorDisjoint(Digits(a), Digits(b), 8 * |a|);
  }

  /** In particular: messages that differ only inside two adjacent octets. */
  lemma AdjacentOctetsDetected(pre: seq<byte>, x1: byte, y1: byte, x2: byte, y2: byte, post: seq<byte>)
    requires (x1, y1) != (x2, y2)
    ensures Crc(pre + [x1, y1] + post) != Crc(pre + [x2, y2] + post)
  {
    hide Xor;
    var c := Crc(pre);
    CrcIsAWord(pre);
    CrcFromAppend(INIT, pre + [x1, y1], post);
    CrcFromAppend(INIT, pre + [x2, y2], post);
    CrcFromAppend(INIT, pre, [x1, y1]);
    CrcFromAppend(INIT, pre, [x2, y2]);
    TwoOctetsInjective(c, x1, y1, x2, y2);
    var (u, v) := (CrcFrom(c, [x1, y1]), CrcFrom(c, [x2, y2]));
    CrcFromIsAWord(c, [x1, y1]);
    CrcFromIsAWord(c, [x2, y2]);
    DifferenceSurvives(u, v, post);
  }

  lemma TwoOctetsInjective(c: nat, x1: byte, y1: byte, x2: byte, y2: byte)
    requires c < 0x1_0000 && (x1, y1) != (x2, y2)
    ensures CrcFrom(c, [x1, y1]) != CrcFrom(c, [x2, y2])
  {
    hide Xor;
    var (t1, t2) := (Digits([x1, y1]), Digits([x2, y2]));
    assert t1 == x1 + 256 * y1 by { assert [x1, y1][1..] == [y1]; assert Digits([y1]) == y1; }
    assert t2 == x2 + 256 * y2 by { assert [x2, y2][1..] == [y2]; assert Digits([y2]) == y2; }
    assert t1 != t2;
    CrcFromIsShifts(c, [x1, y1]);
    CrcFromIsShifts(c, [x2, y2]);
    WordBound();
    XorBelow(c, t1, 16);
    XorBelow(c, t2, 16);
    ShiftsInjective(Xor(c, t1), Xor(c, t2), 16);
    XorCommutes(c, t1);
    XorCommutes(c, t2);
    XorCancels(t1, c);
    XorCancels(t2, c);
  }

  /** The register never forgets: two different words stay different under every message. */
  lemma DifferenceSurvives(a: nat, b: nat, data: seq<byte>)
    requires a != b && a < 0x1_0000 && b < 0x1_0000
    ensures CrcFrom(a, data) != CrcFrom(b, data)
  {
    hide Xor;
    var (d, n) := (Digits(data), 8 * |data|);
    CrcFromIsShifts(a, data);
    CrcFromIsShifts(b, data);
    ShiftsLinear(a, d, n);
    ShiftsLinear(b, d, n);
    ShiftsInjective(a, b, n);
    XorCancels(Shifts(a, n), Shifts(d, n));
    XorCancels(Shifts(b, n), Shifts(d, n));
  }

  lemma {:induction false} ShiftsKeepParity(c: nat, n: nat)
    ensures Odd(Shifts(c, n)) == Odd(c)
    decreases n
  {
    if n > 0 {
      OddOfXor(c / 2, GENERATOR);
      assert Odd(GENERATOR) by {
        assert Odd(5) == false && Odd(0x50) == Odd(5);
        assert Odd(0x28) == Odd(0x50 / 2) == Odd(5);
        assert Odd(0xA0) == Odd(0x50) && Odd(0x5000 / 2) == Odd(0x2800);
      }
      ShiftsKeepParity(Shift(c), n - 1);
    }
  }

  /** Any odd number of flipped bits is detected, in messages of any lengths, because x + 1
      divides the generator. */
  lemma OddErrorsDetected(m1: seq<byte>, m2: seq<byte>)
    requires Odd(Digits(m1)) != Odd(Digits(m2))
    ensures Crc(m1) != Crc(m2)
  {
    hide Xor;
    CrcFromIsShifts(INIT, m1);
    CrcFromIsShifts(INIT, m2);
    OddOfXor(INIT, Digits(m1));
    OddOfXor(INIT, Digits(m2));
    ShiftsKeepParity(Xor(INIT, Digits(m1)), 8 * |m1|);
    ShiftsKeepParity(Xor(INIT, Digits(m2)), 8 * |m2|);
  }
}
