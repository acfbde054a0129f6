/** The gas sensor parsers: lines of ASCII text ending in LF, or 22-octet AM1002 frames, gathered
    octet by octet in a 24-octet accumulator. Measured values are real numbers. */
module GasSensor {
  import opened Bytes
  import opened Numerals

  const ACC_SIZE: nat := 24
  const LF: byte := 10
  const CR: byte := 13
  const SPACE: byte := 32
  const PERCENT: byte := 37
  const DOT: byte := 46
  const LETTER_E: byte := 69
  const LETTER_L: byte := 76
  const LETTER_M: byte := 109
  const LETTER_P: byte := 112

  datatype Model = NoModel | O2 | H2s | Co | Ch4 | S300 | Am1002

  // valid, raw (16 bits) and pct of gas_reading_t
  datatype Reading = Reading(valid: bool, raw: nat, pct: real)

  datatype Sensor = Sensor(acc: seq<byte>, reading: Reading)

  // --- ascii_to_float ---

  datatype Num = Num(integer: real, frac: real, div: real, inFrac: bool)

  const NOTHING: Num := Num(0.0, 0.0, 1.0, false)

  function Digit(n: Num, c: byte): Num
    requires n.div > 0.0
  {
    if ZERO <= c <= ZERO + 9 then
      if !n.inFrac then n.(integer := n.integer * 10.0 + (c - ZERO) as real)
      else n.(div := n.div * 10.0, frac := n.frac + (c - ZERO) as real / (n.div * 10.0))
    else if c == DOT then n.(inFrac := true)
    else n
  }

  function Digits(n: Num, s: seq<byte>): (r: Num)
    requires n.div > 0.0
    ensures r.div > 0.0
    decreases |s|
  {
    if s == [] then n else Digits(Digit(n, s[0]), s[1..])
  }

  function ToFloat(s: seq<byte>): real {
    var n := Digits(NOTHING, s);
    n.integer + n.frac
  }

  method AsciiToFloat(s: seq<byte>) returns (v: real)
    ensures v == ToFloat(s)
  {
    var integer, frac, div, inFrac := 0.0, 0.0, 1.0, false;
    assert s[0..] == s;
    for i := 0 to |s|
      invariant div > 0.0
      invariant Digits(Num(integer, frac, div, inFrac), s[i..]) == Digits(NOTHING, s)
    {
      var c := s[i];
      assert s[i..][0] == c && s[i..][1..] == s[i + 1..];
      if ZERO <= c <= ZERO + 9 {
        if !inFrac {
          integer := integer * 10.0 + (c - ZERO) as real;
        } else {
          div := div * 10.0;
          frac := frac + (c - ZERO) as real / div;
        }
      } else if c == DOT {
        inFrac := true;
      }
    }
    return integer + frac;
  }

  // Conversion of a non-negative value to 16 bits, truncating.
  function Word(v: real): nat {
    if v < 0.0 then 0 else v.Floor % 0x1_0000
  }

  function Clamped(v: real): nat {
    if v > 65535.0 then 65535 else Word(v)
  }

  // --- The line parsers, on everything accumulated up to and including LF ---

  // Number of leading spaces, at most n.
  function Spaces(s: seq<byte>, n: nat): (k: nat)
    requires n <= |s|
    ensures k <= n
  {
    if n == 0 || s[0] != SPACE then 0 else 1 + Spaces(s[1..], n - 1)
  }

  function ParseO2(acc: seq<byte>, r: Reading): Reading {
    var pos := |acc|;
    var pct := if pos >= 4 && acc[pos - 3] == PERCENT then pos - 3
               else if pos >= 3 && acc[pos - 2] == PERCENT then pos - 2 else -1;
    if pct < 3 then r
    else
      var n := if acc[pct - 1] == SPACE then pct - 1 else pct;
      if n < 2 || n > 7 then r
      else var v := ToFloat(acc[..n]); Reading(true, Word(v * 100.0), v)
  }

  function ParsePpm(acc: seq<byte>, r: Reading): Reading {
    var pos := |acc|;
    var m := if pos >= 4 && acc[pos - 3] == LETTER_M then pos - 3
             else if pos >= 3 && acc[pos - 2] == LETTER_M then pos - 2 else -1;
    if m < 3 || acc[m - 1] != LETTER_P || acc[m - 2] != LETTER_P then r
    else
      var field := m - 3;
      if field < 1 then r
      else
        var start := Spaces(acc, field);
        var n := field - start;
        if n < 1 || n > 8 then r
        else var v := ToFloat(acc[start..field]); Reading(true, Clamped(v), v)
  }

  function ParseCh4(acc: seq<byte>, r: Reading): Reading {
    var pos := |acc|;
    var pct :=
      if pos >= 9 && acc[pos - 3] == LETTER_L && acc[pos - 4] == LETTER_E && acc[pos - 5] == LETTER_L then pos - 7
      else if pos >= 8 && acc[pos - 2] == LETTER_L && acc[pos - 3] == LETTER_E && acc[pos - 4] == LETTER_L then pos - 6
      else -1;
    if pct >= 0 && acc[pct] == PERCENT then
      var start := Spaces(acc, pct);
      var n := pct - start;
      if n < 1 || n > 3 then r
      else var v := ToFloat(acc[start..pct]) * 500.0; Reading(true, Clamped(v), v)
    else ParsePpm(acc, r)
  }

  function ParseLine(model: Model, acc: seq<byte>, r: Reading): Reading {
    match model
    case O2 => ParseO2(acc, r)
    case H2s => ParsePpm(acc, r)
    case Co => ParsePpm(acc, r)
    case S300 => ParsePpm(acc, r)
    case Ch4 => ParseCh4(acc, r)
    case _ => r
  }

  // --- AM1002 ---

  function Sum(s: seq<byte>): nat {
    if s == [] then 0 else Sum(s[..|s| - 1]) + s[|s| - 1]
  }

  function ParseAm1002(b: seq<byte>, r: Reading): Reading
    requires |b| == 22
  {
    if b[0] != 0x16 || b[1] != 0x13 || b[2] != 0x16 then r
    else if (256 - Sum(b[..21]) % 256) % 256 != b[21] then r
    else Reading(true, Be16(b[9], b[10]), Be16(b[9], b[10]) as real)
  }

  // --- The octet stream ---

  function Step(model: Model, s: Sensor, b: byte): Sensor
    requires |s.acc| < ACC_SIZE && (model == Am1002 ==> |s.acc| < 22)
  {
    if model == Am1002 then
      if s.acc == [] && b != 0x16 then s
      else
        var acc := s.acc + [b];
        if |acc| >= 22 then Sensor([], ParseAm1002(acc, s.reading)) else s.(acc := acc)
    else
      var acc := s.acc + [b];
      if b == LF then Sensor([], ParseLine(model, acc, s.reading))
      else if |acc| >= ACC_SIZE then s.(acc := [])
      else s.(acc := acc)
  }

  predicate Fits(model: Model, s: Sensor) {
    |s.acc| < if model == Am1002 then 22 else ACC_SIZE
  }

  /** parse_bytes; the accumulator has room again after every octet. */
  function Feed(model: Model, s: Sensor, data: seq<byte>): (r: Sensor)
    requires Fits(model, s)
    ensures Fits(model, r)
    decreases |data|
  {
    if data == [] then s else Feed(model, Step(model, s, data[0]), data[1..])
  }

  class SensorCtx {
    const accBuf: array<byte>
    var accPos: nat
    var valid: bool
    var raw: nat
    var pct: real
    var model: Model

    ghost predicate Valid()
      reads this
    {
      accBuf.Length == ACC_SIZE && accPos < (if model == Am1002 then 22 else ACC_SIZE)
    }

    ghost function View(): Sensor
      requires accPos <= accBuf.Length
      reads this, accBuf
    {
      Sensor(accBuf[..accPos], Reading(valid, raw, pct))
    }

    constructor (model: Model)
      ensures Valid() && this.model == model && View() == Sensor([], Reading(false, 0, 0.0)) && fresh(accBuf)
    {
      accBuf := new byte[ACC_SIZE];
      accPos, valid, raw, pct := 0, false, 0, 0.0;
      this.model := model;
    }

    // gas_sensor_set_model drops what was accumulated and the last reading.
    method SetModel(m: Model)
      requires accBuf.Length == ACC_SIZE
      modifies this
      ensures Valid() && model == m && View() == Sensor([], Reading(false, 0, 0.0))
    {
      model := m;
      accPos, valid, raw, pct := 0, false, 0, 0.0;
    }

    method CountSpaces(n: nat) returns (start: nat)
      requires n <= accPos <= accBuf.Length
      ensures start == Spaces(accBuf[..accPos], n)
    {
      start := 0;
      ghost var acc := accBuf[..accPos];
      while start < n && accBuf[start] == SPACE
        invariant start <= n && Spaces(acc, n) == start + Spaces(acc[start..], n - start)
      {
        assert acc[start..][1..] == acc[start + 1..];
        start := start + 1;
      }
    }

    method ReadO2()
      requires 0 < accPos <= accBuf.Length
      modifies this`valid, this`raw, this`pct
      ensures View() == old(View()).(reading := ParseO2(old(View()).acc, old(View()).reading))
    {
      var pos := accPos;
      var p: int := -1;
      if pos >= 4 && accBuf[pos - 3] == PERCENT {
        p := pos - 3;
      } else if pos >= 3 && accBuf[pos - 2] == PERCENT {
        p := pos - 2;
      }
      if p < 3 {
        return;
      }
      var n := if accBuf[p - 1] == SPACE then p - 1 else p;
      if n < 2 || n > 7 {
        return;
      }
      SliceOfPrefix(accBuf[..], accPos, 0, n);
      assert accBuf[..][..accPos] == accBuf[..accPos] && accBuf[..][0..n] == accBuf[..n];
      var v := AsciiToFloat(accBuf[..n]);
      valid, pct, raw := true, v, Word(v * 100.0);
    }

    method ReadPpm()
      requires 0 < accPos <= accBuf.Length
      modifies this`valid, this`raw, this`pct
      ensures View() == old(View()).(reading := ParsePpm(old(View()).acc, old(View()).reading))
    {
      hide ToFloat, Spaces;
      var pos := accPos;
      var m: int := -1;
      if pos >= 4 && accBuf[pos - 3] == LETTER_M {
        m := pos - 3;
      } else if pos >= 3 && accBuf[pos - 2] == LETTER_M {
        m := pos - 2;
      }
      if m < 3 || accBuf[m - 1] != LETTER_P || accBuf[m - 2] != LETTER_P {
        return;
      }
      var field := m - 3;
      if field < 1 {
        return;
      }
      var start := CountSpaces(field);
      var n := field - start;
      if n < 1 || n > 8 {
        return;
      }
      SliceOfPrefix(accBuf[..], accPos, start, field);
      assert accBuf[..][..accPos] == accBuf[..accPos] && accBuf[..][start..field] == accBuf[start..field];
      var v := AsciiToFloat(accBuf[start..field]);
      valid, pct, raw := true, v, Clamped(v);
    }

    method ReadCh4()
      requires 0 < accPos <= accBuf.Length
      modifies this`valid, this`raw, this`pct
      ensures View() == old(View()).(reading := ParseCh4(old(View()).acc, old(View()).reading))
    {
      hide ParsePpm, ToFloat, Spaces;
      var pos := accPos;
      var p: int := -1;
      if pos >= 9 && accBuf[pos - 3] == LETTER_L && accBuf[pos - 4] == LETTER_E && accBuf[pos - 5] == LETTER_L {
        p := pos - 7;
      } else if pos >= 8 && accBuf[pos - 2] == LETTER_L && accBuf[pos - 3] == LETTER_E && accBuf[pos - 4] == LETTER_L {
        p := pos - 6;
      }
      if p >= 0 && accBuf[p] == PERCENT {
        var start := CountSpaces(p);
        var n := p - start;
        if n < 1 || n > 3 {
          return;
        }
        SliceOfPrefix(accBuf[..], accPos, start, p);
        assert accBuf[..][..accPos] == accBuf[..accPos] && accBuf[..][start..p] == accBuf[start..p];
        var f := AsciiToFloat(accBuf[start..p]);
        var v := f * 500.0;
        valid, pct, raw := true, v, Clamped(v);
      } else {
        ReadPpm();
      }
    }

    method ReadAm1002()
      requires accPos == 22 <= accBuf.Length
      modifies this`valid, this`raw, this`pct
      ensures View() == old(View()).(reading := ParseAm1002(old(View()).acc, old(View()).reading))
    {
      if accBuf[0] != 0x16 || accBuf[1] != 0x13 || accBuf[2] != 0x16 {
        return;
      }
      var sum: nat := 0;
      for k := 0 to 21
        invariant sum == Sum(accBuf[..k])
      {
        assert accBuf[..k + 1][..k] == accBuf[..k];
        sum := sum + accBuf[k];
      }
      assert accBuf[..22][..21] == accBuf[..21];
      if (256 - sum % 256) % 256 != accBuf[21] {
        return;
      }
      var pm25 := Be16(accBuf[9], accBuf[10]);
      valid, pct, raw := true, pm25 as real, pm25;
    }

    // One turn of the loop of parse_bytes.
    method ParseByte(b: byte)
      requires Valid()
      modifies this`accPos, this`valid, this`raw, this`pct, accBuf
      ensures Valid() && View() == Step(model, old(View()), b)
    {
      ghost var before := accBuf[..accPos];
      if model == Am1002 {
        if accPos == 0 && b != 0x16 {
          return;
        }
        accBuf[accPos] := b;
        accPos := accPos + 1;
        assert accBuf[..accPos] == before + [b];
        if accPos >= 22 {
          ReadAm1002();
          accPos := 0;
        }
      } else {
        accBuf[accPos] := b;
        accPos := accPos + 1;
        assert accBuf[..accPos] == before + [b];
        if b == LF {
          if model == O2 {
            ReadO2();
          } else if model == H2s || model == Co || model == S300 {
            ReadPpm();
          } else if model == Ch4 {
            ReadCh4();
          }
          accPos := 0;
        }
        if accPos >= ACC_SIZE {
          accPos := 0;
        }
      }
    }

    method ParseBytes(data: seq<byte>)
      requires Valid()
      modifies this`accPos, this`valid, this`raw, this`pct, accBuf
      ensures Valid() && View() == Feed(model, old(View()), data)
    {
      hide Step;
      assert data[0..] == data;
      for i := 0 to |data|
        invariant Valid() && Feed(model, View(), data[i..]) == Feed(model, old(View()), data)
      {
        assert data[i..][0] == data[i] && data[i..][1..] == data[i + 1..];
        ParseByte(data[i]);
      }
    }
  }
}
