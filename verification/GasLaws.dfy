/** What the ASCII sensor parsers guarantee: printed readings are read back wherever they stand in
    a stream and however it is cut. */
module GasLaws {
  import opened Bytes
  import opened Numerals
  import opened GasSensor

  // --- Cutting the stream ---

  /** A stream may be fed in packets of any size. */
  lemma {:induction false} PacketsDoNotMatter(model: Model, s: Sensor, a: seq<byte>, b: seq<byte>)
    requires Fits(model, s)
    ensures Feed(model, s, a + b) == Feed(model, Feed(model, s, a), b)
    decreases |a|
  {
    if a == [] {
      assert a + b == b;
    } else {
      assert (a + b)[0] == a[0] && (a + b)[1..] == a[1..] + b;
      PacketsDoNotMatter(model, Step(model, s, a[0]), a[1..], b);
    }
  }

  lemma FeedOne(model: Model, s: Sensor, b: byte)
    requires Fits(model, s)
    ensures Feed(model, s, [b]) == Step(model, s, b)
  {
    assert Feed(model, s, [b]) == Feed(model, Step(model, s, b), []);
  }

  /** Whatever came before, a line feed empties the accumulator of an ASCII sensor. */
  lemma NewlineSynchronises(model: Model, s: Sensor, before: seq<byte>)
    requires model != Am1002 && Fits(model, s)
    ensures Feed(model, s, before + [LF]).acc == []
  {
    PacketsDoNotMatter(model, s, before, [LF]);
    FeedOne(model, Feed(model, s, before), LF);
  }

  // A line that fits is handed to the parser whole.
  lemma {:induction false} LineIsParsed(model: Model, acc: seq<byte>, r: Reading, line: seq<byte>)
    requires model != Am1002 && LF !in line && |acc| + |line| < ACC_SIZE
    ensures Feed(model, Sensor(acc, r), line + [LF]) == Sensor([], ParseLine(model, acc + line + [LF], r))
    decreases |line|
  {
    if line == [] {
      FeedOne(model, Sensor(acc, r), LF);
      assert line + [LF] == [LF] && acc + line == acc;
    } else {
      assert (line + [LF])[0] == line[0] && (line + [LF])[1..] == line[1..] + [LF];
      assert line[0] in line;
      assert Step(model, Sensor(acc, r), line[0]) == Sensor(acc + [line[0]], r);
      LineIsParsed(model, acc + [line[0]], r, line[1..]);
      assert acc + line == acc + [line[0]] + line[1..];
    }
  }

  lemma LineAfterNewline(model: Model, s: Sensor, before: seq<byte>, line: seq<byte>)
    requires model != Am1002 && Fits(model, s) && LF !in line && |line| < ACC_SIZE
    ensures Feed(model, s, before + [LF] + line + [LF]) ==
            Sensor([], ParseLine(model, line + [LF], Feed(model, s, before + [LF]).reading))
  {
    assert before + [LF] + line + [LF] == (before + [LF]) + (line + [LF]);
    PacketsDoNotMatter(model, s, before + [LF], line + [LF]);
    NewlineSynchronises(model, s, before);
    LineIsParsed(model, [], Feed(model, s, before + [LF]).reading, line);
    assert [] + line == line;
  }

  /** Of a line that does not fit, what is left after dropping it 24 octets at a time is parsed. */
  lemma {:induction false} LongLineIsParsed(model: Model, r: Reading, line: seq<byte>)
    requires model != Am1002 && LF !in line
    ensures Feed(model, Sensor([], r), line + [LF]) ==
            Sensor([], ParseLine(model, line[24 * (|line| / 24)..] + [LF], r))
    decreases |line|
  {
    hide ParseLine;
    if |line| < 24 {
      LineIsParsed(model, [], r, line);
      assert [] + line == line[0..] == line;
    } else {
      var (a, b) := (line[..24], line[24..]);
      assert line + [LF] == a + (b + [LF]);
      PacketsDoNotMatter(model, Sensor([], r), a, b + [LF]);
      FullIsDropped(model, [], r, a);
      LongLineIsParsed(model, r, b);
      assert |line| / 24 == 1 + |b| / 24;
      assert b[24 * (|b| / 24)..] == line[24 * (|line| / 24)..];
    }
  }

  lemma {:induction false} FullIsDropped(model: Model, acc: seq<byte>, r: Reading, s: seq<byte>)
    requires model != Am1002 && LF !in s && s != [] && |acc| + |s| == 24
    ensures Feed(model, Sensor(acc, r), s) == Sensor([], r)
    decreases |s|
  {
    hide ParseLine;
    assert s[0] in s;
    if |s| > 1 {
      FullIsDropped(model, acc + [s[0]], r, s[1..]);
    } else {
      assert s == [s[0]];
      FeedOne(model, Sensor(acc, r), s[0]);
    }
  }

  // --- Printed numbers ---

  function Blanks(n: nat): (s: seq<byte>)
    ensures |s| == n && forall c :: c in s ==> c == SPACE
  {
    if n == 0 then [] else [SPACE] + Blanks(n - 1)
  }

  // printf %*u
  function Padded(v: nat, width: nat): seq<byte>
    requires |Decimal(v)| <= width
  {
    Blanks(width - |Decimal(v)|) + Decimal(v)
  }

  lemma {:induction false} DigitsAppend(n: Num, a: seq<byte>, b: seq<byte>)
    requires n.div > 0.0
    ensures Digits(n, a + b) == Digits(Digits(n, a), b)
    decreases |a|
  {
    if a == [] {
      assert a + b == b;
    } else {
      assert (a + b)[0] == a[0] && (a + b)[1..] == a[1..] + b;
      DigitsAppend(Digit(n, a[0]), a[1..], b);
    }
  }

  lemma DigitsOfOne(n: Num, c: byte)
    requires n.div > 0.0
    ensures Digits(n, [c]) == Digit(n, c)
  {
    assert Digits(n, [c]) == Digits(Digit(n, c), []);
  }

  lemma {:induction false} DecimalIsRead(v: nat)
    ensures Digits(NOTHING, Decimal(v)) == Num(v as real, 0.0, 1.0, false)
  {
    if v < 10 {
      DigitsOfOne(NOTHING, ZERO + v);
    } else {
      DecimalIsRead(v / 10);
      DigitsAppend(NOTHING, Decimal(v / 10), [ZERO + v % 10]);
      DigitsOfOne(Num((v / 10) as real, 0.0, 1.0, false), ZERO + v % 10);
      assert (v / 10) as real * 10.0 + (v % 10) as real == v as real;
    }
  }

  lemma {:induction false} SpacesOfBlanks(n: nat, s: seq<byte>, limit: nat)
    requires n <= limit <= n + |s| && (s != [] ==> s[0] != SPACE)
    ensures Spaces(Blanks(n) + s, limit) == n
  {
    if n == 0 {
      assert Blanks(0) + s == s;
    } else {
      assert (Blanks(n) + s)[1..] == Blanks(n - 1) + s;
      SpacesOfBlanks(n - 1, s, limit - 1);
    }
  }

  // What a padded number followed by anything is read as.
  lemma PaddedIsRead(v: nat, width: nat, tail: seq<byte>)
    requires |Decimal(v)| <= width
    ensures var s := Padded(v, width) + tail;
            var start := Spaces(s, width);
            start == width - |Decimal(v)| && ToFloat(s[start..width]) == v as real
  {
    var (pad, d) := (width - |Decimal(v)|, Decimal(v));
    var s := Padded(v, width) + tail;
    assert s == Blanks(pad) + (d + tail);
    assert d[0] in d;
    SpacesOfBlanks(pad, d + tail, width);
    assert s[pad..width] == d;
    DecimalIsRead(v);
  }

  // --- Printed lines ---

  function PpmLine(v: nat): seq<byte>
    requires v < 1000000
  {
    WidthIff(v, 6);
    Padded(v, 6) + [SPACE, LETTER_P, LETTER_P, LETTER_M, CR]
  }

  function LelLine(v: nat): seq<byte>
    requires v < 1000
  {
    WidthIff(v, 5);
    Padded(v, 5) + [PERCENT, SPACE, LETTER_L, LETTER_E, LETTER_L, CR]
  }

  // Hundredths of a percent as DD.DD%
  function O2Line(h: nat): seq<byte>
    requires h < 10000
  {
    [ZERO + h / 1000, ZERO + h / 100 % 10, DOT, ZERO + h / 10 % 10, ZERO + h % 10, PERCENT, CR]
  }

  /** Whatever came before the last line feed, a printed ppm value of up to six digits is read
      back exactly, its 16-bit copy clamped, by every sensor that may print one. */
  lemma PpmIsReadBack(model: Model, s: Sensor, before: seq<byte>, v: nat)
    requires model in {H2s, Co, S300, Ch4} && Fits(model, s) && v < 1000000
    ensures Feed(model, s, before + [LF] + PpmLine(v) + [LF]) ==
            Sensor([], Reading(true, if v > 65535 then 65535 else v, v as real))
  {
    hide ToFloat, Decimal;
    WidthIff(v, 6);
    var acc := PpmLine(v) + [LF];
    var tail := [SPACE, LETTER_P, LETTER_P, LETTER_M, CR, LF];
    LineAfterNewline(model, s, before, PpmLine(v));
    PaddedIsRead(v, 6, tail);
    assert acc == Padded(v, 6) + tail;
    assert |acc| == 12 && acc[9] == LETTER_M && acc[8] == LETTER_P && acc[7] == LETTER_P && acc[10] == CR;
  }

  // A value with one decimal, behind any number of blanks.
  function TenthsLine(blanks: nat, v: nat, tenths: nat): seq<byte>
    requires tenths < 10
  {
    Blanks(blanks) + (Decimal(v) + [DOT, ZERO + tenths] + [SPACE, LETTER_P, LETTER_P, LETTER_M, CR])
  }

  lemma TenthsAreRead(v: nat, tenths: nat)
    requires tenths < 10
    ensures ToFloat(Decimal(v) + [DOT, ZERO + tenths]) == v as real + tenths as real / 10.0
  {
    hide Decimal;
    DecimalIsRead(v);
    var n := Num(v as real, 0.0, 1.0, false);
    DigitsAppend(NOTHING, Decimal(v), [DOT, ZERO + tenths]);
    DigitsAppend(n, [DOT], [ZERO + tenths]);
    assert [DOT] + [ZERO + tenths] == [DOT, ZERO + tenths];
    DigitsOfOne(n, DOT);
    DigitsOfOne(n.(inFrac := true), ZERO + tenths);
  }

  /** Whatever stands before " ppm", behind blanks: it is read exactly if it has one to eight
      characters. */
  lemma PpmFieldIff(blanks: nat, num: seq<byte>, r: Reading)
    requires num != [] && num[0] != SPACE
    ensures ParsePpm(Blanks(blanks) + num + [SPACE, LETTER_P, LETTER_P, LETTER_M, CR, LF], r) ==
            if |num| <= 8 then Reading(true, Clamped(ToFloat(num)), ToFloat(num)) else r
  {
    hide ToFloat, Spaces;
    var tail := num + [SPACE, LETTER_P, LETTER_P, LETTER_M, CR, LF];
    var acc := Blanks(blanks) + num + [SPACE, LETTER_P, LETTER_P, LETTER_M, CR, LF];
    assert acc == Blanks(blanks) + tail;
    var field := blanks + |num|;
    assert acc[field + 3] == LETTER_M && acc[field + 4] == CR;
    assert acc[field + 2] == LETTER_P && acc[field + 1] == LETTER_P;
    SpacesOfBlanks(blanks, tail, field);
    assert acc[blanks..field] == num;
  }

  /** And before "% LEL": if it has one to three and is not a single one at the very front of the
      line, which is an octet too short for the parser. */
  lemma LelFieldIff(blanks: nat, num: seq<byte>, r: Reading)
    requires num != [] && num[0] != SPACE
    ensures ParseCh4(Blanks(blanks) + num + [PERCENT, SPACE, LETTER_L, LETTER_E, LETTER_L, CR, LF], r) ==
            if |num| <= 3 && blanks + |num| > 1 then Reading(true, Clamped(ToFloat(num) * 500.0), ToFloat(num) * 500.0)
            else r
  {
    hide ToFloat, Spaces, ParseCh4, Clamped;
    var tail := num + [PERCENT, SPACE, LETTER_L, LETTER_E, LETTER_L, CR, LF];
    var acc := Blanks(blanks) + num + [PERCENT, SPACE, LETTER_L, LETTER_E, LETTER_L, CR, LF];
    assert acc == Blanks(blanks) + tail;
    var field := blanks + |num|;
    assert |acc| == field + 7 && acc[field] == PERCENT;
    assert acc[field + 2] == LETTER_L && acc[field + 3] == LETTER_E && acc[field + 4] == LETTER_L;
    SpacesOfBlanks(blanks, tail, field);
    assert acc[blanks..field] == num;
    if field > 1 { Ch4OfPercent(acc, field, r); } else { Ch4TooShort(acc, r); }
  }

  lemma Ch4TooShort(acc: seq<byte>, r: Reading)
    requires |acc| == 8 && acc[5] == LETTER_L && acc[6] == CR
    ensures ParseCh4(acc, r) == r
  {}

  lemma Ch4OfPercent(acc: seq<byte>, field: nat, r: Reading)
    requires |acc| == field + 7 && |acc| >= 9 && acc[field] == PERCENT
    requires acc[field + 2] == LETTER_L && acc[field + 3] == LETTER_E && acc[field + 4] == LETTER_L
    ensures var n := field - Spaces(acc, field);
            ParseCh4(acc, r) ==
            if n < 1 || n > 3 then r
            else
              var v := ToFloat(acc[Spaces(acc, field)..field]) * 500.0;
              Reading(true, Clamped(v), v)
  {
    hide ToFloat, Spaces, ParsePpm, Clamped;
  }

  /** So is a ppm value with one decimal; its 16-bit copy is the whole part, clamped. */
  lemma TenthsAreReadBack(model: Model, s: Sensor, before: seq<byte>, blanks: nat, v: nat, tenths: nat)
    requires model in {H2s, Co, S300, Ch4} && Fits(model, s) && v < 1000000 && tenths < 10
    requires |TenthsLine(blanks, v, tenths)| < ACC_SIZE
    ensures Feed(model, s, before + [LF] + TenthsLine(blanks, v, tenths) + [LF]) ==
            Sensor([], Reading(true, if v > 65535 then 65535 else v, v as real + tenths as real / 10.0))
  {
    hide ToFloat, Decimal, Spaces, Feed, ParsePpm;
    var line := TenthsLine(blanks, v, tenths);
    LineAfterNewline(model, s, before, line);
    TenthsParsed(blanks, v, tenths, Feed(model, s, before + [LF]).reading);
    var acc := line + [LF];
    assert acc[|acc| - 2] == CR && acc[|acc| - 3] == LETTER_M;
  }

  lemma TenthsParsed(blanks: nat, v: nat, tenths: nat, r: Reading)
    requires v < 1000000 && tenths < 10
    ensures ParsePpm(TenthsLine(blanks, v, tenths) + [LF], r) ==
            Reading(true, if v > 65535 then 65535 else v, v as real + tenths as real / 10.0)
  {
    hide ToFloat, Decimal, Spaces;
    WidthIff(v, 6);
    assert Pow10(6) == 1000000;
    var num := Decimal(v) + [DOT, ZERO + tenths];
    var tail := num + [SPACE, LETTER_P, LETTER_P, LETTER_M, CR, LF];
    var acc := TenthsLine(blanks, v, tenths) + [LF];
    assert acc == Blanks(blanks) + tail;
    var field := blanks + |num|;
    assert |acc| == field + 6 && acc[field + 3] == LETTER_M && acc[field + 4] == CR;
    assert acc[field + 2] == LETTER_P && acc[field + 1] == LETTER_P;
    assert num[0] == Decimal(v)[0] && Decimal(v)[0] in Decimal(v);
    SpacesOfBlanks(blanks, tail, field);
    assert acc[blanks..field] == num;
    TenthsAreRead(v, tenths);
  }

  /** A printed %LEL value is read back as 500 times as many ppm, its 16-bit copy clamped. */
  lemma LelIsReadBack(s: Sensor, before: seq<byte>, v: nat)
    requires Fits(Ch4, s) && v < 1000
    ensures Feed(Ch4, s, before + [LF] + LelLine(v) + [LF]) ==
            Sensor([], Reading(true, if 500 * v > 65535 then 65535 else 500 * v, (500 * v) as real))
  {
    hide ToFloat, Decimal;
    WidthIff(v, 5);
    WidthIff(v, 3);
    var acc := LelLine(v) + [LF];
    var tail := [PERCENT, SPACE, LETTER_L, LETTER_E, LETTER_L, CR, LF];
    LineAfterNewline(Ch4, s, before, LelLine(v));
    PaddedIsRead(v, 5, tail);
    assert acc == Padded(v, 5) + tail;
    assert |acc| == 12 && acc[9] == LETTER_L && acc[8] == LETTER_E && acc[7] == LETTER_L && acc[5] == PERCENT;
    assert v as real * 500.0 == (500 * v) as real;
  }

  /** A printed oxygen value is read back to the hundredth. */
  lemma O2IsReadBack(s: Sensor, before: seq<byte>, h: nat)
    requires Fits(O2, s) && h < 10000
    ensures Feed(O2, s, before + [LF] + O2Line(h) + [LF]) == Sensor([], Reading(true, h, h as real / 100.0))
  {
    hide ParseO2;
    LineAfterNewline(O2, s, before, O2Line(h));
    DecimalPlaces(h);
    O2Parsed(h / 1000, h / 100 % 10, h / 10 % 10, h % 10, Feed(O2, s, before + [LF]).reading);
    assert O2Line(h) + [LF] ==
           [ZERO + h / 1000, ZERO + h / 100 % 10, DOT, ZERO + h / 10 % 10, ZERO + h % 10, PERCENT, CR, LF];
  }

  /** Before "%" with an optional blank: it is read exactly if it has two to seven characters and "%"
      is not before the fourth octet. */
  lemma O2FieldIff(num: seq<byte>, blank: bool, r: Reading)
    requires num != [] && num[|num| - 1] != SPACE
    ensures ParseO2(num + (if blank then [SPACE] else []) + [PERCENT, CR, LF], r) ==
            if 2 <= |num| <= 7 && (blank || |num| >= 3) then Reading(true, Word(ToFloat(num) * 100.0), ToFloat(num))
            else r
  {
    hide ToFloat, Word;
    var acc := num + (if blank then [SPACE] else []) + [PERCENT, CR, LF];
    var p := |num| + if blank then 1 else 0;
    assert |acc| == p + 3 && acc[p] == PERCENT && acc[p + 1] == CR;
    assert acc[..|num|] == num;
  }

  lemma DecimalPlaces(h: nat)
    requires h < 10000
    ensures 1000 * (h / 1000) + 100 * (h / 100 % 10) + 10 * (h / 10 % 10) + h % 10 == h
  {
    var (t, u) := (h / 10, h / 100);
    assert h == 10 * t + h % 10;
    assert u == t / 10 && t == 10 * u + t % 10;
    assert h / 1000 == u / 10 && u == 10 * (u / 10) + u % 10;
  }

  lemma O2Parsed(a: nat, b: nat, c: nat, d: nat, r: Reading)
    requires a < 10 && b < 10 && c < 10 && d < 10
    ensures var h := 1000 * a + 100 * b + 10 * c + d;
            ParseO2([ZERO + a, ZERO + b, DOT, ZERO + c, ZERO + d, PERCENT, CR, LF], r) ==
            Reading(true, h, h as real / 100.0)
  {
    hide ToFloat;
    var acc := [ZERO + a, ZERO + b, DOT, ZERO + c, ZERO + d, PERCENT, CR, LF];
    FourDigits(a, b, c, d);
    assert acc[..5] == [ZERO + a, ZERO + b, DOT, ZERO + c, ZERO + d];
    var h := 1000 * a + 100 * b + 10 * c + d;
    assert h as real / 100.0 * 100.0 == h as real;
  }

  lemma FourDigits(a: nat, b: nat, c: nat, d: nat)
    requires a < 10 && b < 10 && c < 10 && d < 10
    ensures ToFloat([ZERO + a, ZERO + b, DOT, ZERO + c, ZERO + d]) == (1000 * a + 100 * b + 10 * c + d) as real / 100.0
  {
    var n1 := Digit(NOTHING, ZERO + a);
    var n2 := Digit(n1, ZERO + b);
    var n3 := Digit(n2, DOT);
    var n4 := Digit(n3, ZERO + c);
    var n5 := Digit(n4, ZERO + d);
    assert n2 == Num((10 * a + b) as real, 0.0, 1.0, false);
    assert n4 == Num((10 * a + b) as real, c as real / 10.0, 10.0, true);
    assert n5 == Num((10 * a + b) as real, c as real / 10.0 + d as real / 100.0, 100.0, true);
    FiveSteps(ZERO + a, ZERO + b, DOT, ZERO + c, ZERO + d);
  }

  lemma FiveSteps(a: byte, b: byte, c: byte, d: byte, e: byte)
    ensures Digits(NOTHING, [a, b, c, d, e]) == Digit(Digit(Digit(Digit(Digit(NOTHING, a), b), c), d), e)
  {
    hide Digit;
    DigitsAppend(NOTHING, [a], [b, c, d, e]);
    DigitsOfOne(NOTHING, a);
    var n1 := Digit(NOTHING, a);
    DigitsAppend(n1, [b], [c, d, e]);
    DigitsOfOne(n1, b);
    var n2 := Digit(n1, b);
    DigitsAppend(n2, [c], [d, e]);
    DigitsOfOne(n2, c);
    var n3 := Digit(n2, c);
    DigitsAppend(n3, [d], [e]);
    DigitsOfOne(n3, d);
    DigitsOfOne(Digit(n3, d), e);
    assert [a] + [b, c, d, e] == [a, b, c, d, e] && [b] + [c, d, e] == [b, c, d, e];
    assert [c] + [d, e] == [c, d, e] && [d] + [e] == [d, e];
  }
}
