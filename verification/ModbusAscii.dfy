/** Modbus ASCII transcoding between RTU ADUs and ':' HEX LRC CR LF frames: MODBUS over Serial
    Line V1.02, sections 2.5.2 (ASCII mode) and 6.2.1 (LRC). */
module ModbusAscii {
  import opened Bytes
  import opened Options
  import Crc16

  const COLON: byte := 58
  const CR: byte := 13
  const LF: byte := 10
  const FRAME_MAX: nat := 520 // capacity of the transmit and receive buffers

  // What the decoder returns: 0, -1 and -2.
  datatype Decoded = Adu(rtu: seq<byte>) | LrcMismatch | Malformed

  // --- Hexadecimal digits ---

  function HexChar(n: nat): byte
    requires n < 16
  {
    if n < 10 then 48 + n else 65 + n - 10
  }

  function Nibble(c: byte): (n: int)
    ensures -1 <= n < 16
  {
    if 48 <= c <= 57 then c - 48
    else if 65 <= c <= 70 then 10 + c - 65
    else if 97 <= c <= 102 then 10 + c - 97
    else -1
  }

  function HexPair(b: byte): (s: seq<byte>)
    ensures |s| == 2
  {
    [HexChar(b / 16), HexChar(b % 16)]
  }

  function HexOf(data: seq<byte>): seq<byte> {
    if data == [] then [] else HexPair(data[0]) + HexOf(data[1..])
  }

  function Unhex(hex: seq<byte>): Option<seq<byte>> {
    if |hex| < 2 then Some([])
    else if Nibble(hex[0]) < 0 || Nibble(hex[1]) < 0 then None
    else match Unhex(hex[2..])
      case None => None
      case Some(rest) => Some([Nibble(hex[0]) * 16 + Nibble(hex[1])] + rest)
  }

  function UpperChar(c: byte): byte {
    if 97 <= c <= 102 then c - 32 else c
  }

  function Upper(s: seq<byte>): seq<byte> {
    seq(|s|, i requires 0 <= i < |s| => UpperChar(s[i]))
  }

  lemma {:induction false} HexOfAppend(a: seq<byte>, b: seq<byte>)
    ensures |HexOf(a)| == 2 * |a|
    ensures HexOf(a + b) == HexOf(a) + HexOf(b)
  {
    hide HexPair;
    if a == [] {
      assert a + b == b;
    } else {
      assert (a + b)[0] == a[0] && (a + b)[1..] == a[1..] + b;
      HexOfAppend(a[1..], b);
      ConcatAssociates(HexPair(a[0]), HexOf(a[1..]), HexOf(b));
    }
  }

  lemma HexOfOne(a: seq<byte>, b: byte)
    ensures |HexOf(a)| == 2 * |a| && |HexOf(a + [b])| == 2 * |a| + 2
    ensures HexOf(a + [b]) == HexOf(a) + [HexChar(b / 16), HexChar(b % 16)]
  {
    HexOfAppend(a, [b]);
    assert HexOf([b]) == HexPair(b) + HexOf([]);
  }

  lemma {:induction false} UnhexAppend(a: seq<byte>, b: seq<byte>)
    requires |a| % 2 == 0
    ensures Unhex(a + b) ==
            match (Unhex(a), Unhex(b)) case (Some(x), Some(y)) => Some(x + y) case _ => None
    ensures Unhex(a).Some? ==> |Unhex(a).value| == |a| / 2
  {
    if a == [] {
      assert a + b == b;
      assert Unhex(b).Some? ==> [] + Unhex(b).value == Unhex(b).value;
    } else {
      assert (a + b)[0] == a[0] && (a + b)[1] == a[1] && (a + b)[2..] == a[2..] + b;
      UnhexAppend(a[2..], b);
      if Unhex(a).Some? && Unhex(b).Some? {
        var (d, x, y) := ([Nibble(a[0]) * 16 + Nibble(a[1])], Unhex(a[2..]).value, Unhex(b).value);
        assert d + (x + y) == (d + x) + y;
      }
    }
  }

  lemma UnhexPair(a: byte, b: byte)
    ensures Unhex([a, b]) == if Nibble(a) < 0 || Nibble(b) < 0 then None else Some([Nibble(a) * 16 + Nibble(b)])
  {
    assert [a, b][2..] == [];
    assert Unhex([a, b][2..]) == Some([]);
    assert [Nibble(a) * 16 + Nibble(b)] + [] == [Nibble(a) * 16 + Nibble(b)];
  }

  lemma EmptyHex()
    ensures HexOf([]) == [] && Unhex([]) == Some([])
  {}

  lemma NibbleOfHex(n: nat)
    requires n < 16
    ensures Nibble(HexChar(n)) == n
  {}

  lemma UnhexFirst(a: byte, b: byte, rest: seq<byte>)
    requires Nibble(a) >= 0 && Nibble(b) >= 0
    ensures Unhex([a, b] + rest) ==
            match Unhex(rest) case None => None case Some(x) => Some([Nibble(a) * 16 + Nibble(b)] + x)
  {
    assert ([a, b] + rest)[2..] == rest;
  }

  lemma {:induction false} UnhexInvertsHex(data: seq<byte>)
    ensures Unhex(HexOf(data)) == Some(data)
  {
    hide Nibble, HexChar, Unhex;
    if data == [] {
      EmptyHex();
    } else {
      var b := data[0];
      NibbleOfHex(b / 16);
      NibbleOfHex(b % 16);
      UnhexFirst(HexChar(b / 16), HexChar(b % 16), HexOf(data[1..]));
      UnhexInvertsHex(data[1..]);
      assert [b] + data[1..] == data;
    }
  }

  // Parsing never looks at the case of a digit, and printing what was parsed restores upper case.
  lemma {:induction false} HexInvertsUnhex(hex: seq<byte>)
    requires |hex| % 2 == 0
    ensures Unhex(Upper(hex)) == Unhex(hex)
    ensures Unhex(hex).Some? ==> HexOf(Unhex(hex).value) == Upper(hex)
  {
    if hex != [] {
      assert Upper(hex)[2..] == Upper(hex[2..]);
      HexInvertsUnhex(hex[2..]);
      assert Nibble(UpperChar(hex[0])) == Nibble(hex[0]) && Nibble(UpperChar(hex[1])) == Nibble(hex[1]);
      if Unhex(hex).Some? {
        var (hi, lo) := (Nibble(hex[0]), Nibble(hex[1]));
        assert (hi * 16 + lo) / 16 == hi && (hi * 16 + lo) % 16 == lo;
        assert HexChar(hi) == UpperChar(hex[0]) && HexChar(lo) == UpperChar(hex[1]);
        assert [hi * 16 + lo] + Unhex(hex[2..]).value == Unhex(hex).value;
        assert Upper(hex) == [UpperChar(hex[0]), UpperChar(hex[1])] + Upper(hex[2..]);
      }
    }
  }

  // --- LRC ---

  function Sum(data: seq<byte>): nat {
    if data == [] then 0 else data[0] + Sum(data[1..])
  }

  // Two's complement of the octet sum, in eight bits.
  function Lrc(data: seq<byte>): byte {
    (256 - Sum(data) % 256) % 256
  }

  lemma {:induction false} SumAppend(a: seq<byte>, b: seq<byte>)
    ensures Sum(a + b) == Sum(a) + Sum(b)
  {
    if a == [] {
      assert a + b == b;
    } else {
      assert (a + b)[0] == a[0] && (a + b)[1..] == a[1..] + b;
      SumAppend(a[1..], b);
    }
  }

  // l is the complement of s exactly when together they vanish, and no other octet is.
  lemma ComplementIff(s: nat, l: byte, other: byte)
    ensures l == (256 - s % 256) % 256 <==> (s + l) % 256 == 0
    ensures (s + l) % 256 == 0 && other != l ==> (s + other) % 256 != 0
  {
    var r := s % 256;
    assert (s + l) % 256 == (r + l) % 256;
    assert (s + other) % 256 == (r + other) % 256;
  }

  /** The last octet is the LRC of the others exactly when all of them sum to zero mod 256. */
  lemma LrcCompletesTheSum(data: seq<byte>)
    requires data != []
    ensures data[|data| - 1] == Lrc(data[..|data| - 1]) <==> Sum(data) % 256 == 0
  {
    var n := |data| - 1;
    assert data == data[..n] + [data[n]];
    SumAppend(data[..n], [data[n]]);
    assert Sum([data[n]]) == data[n];
    ComplementIff(Sum(data[..n]), data[n], 0);
  }

  /** rs232_lrc */
  method ComputeLrc(data: array<byte>, len: nat) returns (lrc: byte)
    requires len <= data.Length
    ensures lrc == Lrc(data[..len])
  {
    var sum: byte := 0;
    for i := 0 to len
      invariant sum == Sum(data[..i]) % 256
    {
      assert data[..i + 1] == data[..i] + [data[i]];
      SumAppend(data[..i], [data[i]]);
      assert Sum([data[i]]) == data[i];
      sum := (sum + data[i]) % 256;
    }
    lrc := (255 - sum + 1) % 256;
  }

  // --- Encoder ---

  function Frame(bin: seq<byte>): seq<byte> {
    [COLON] + HexOf(bin) + [CR, LF]
  }

  // The two CRC octets are dropped and the LRC takes their place.
  function Pdu(rtu: seq<byte>): seq<byte>
    requires |rtu| >= 2
  {
    rtu[..|rtu| - 2]
  }

  function Encode(rtu: seq<byte>, cap: nat): Option<seq<byte>> {
    if |rtu| < 4 || cap < 2 * |rtu| + 1 then None
    else Some(Frame(Pdu(rtu) + [Lrc(Pdu(rtu))]))
  }

  /** rs232_rtu_to_ascii_frame: fills out and returns the number of octets written, or -1. */
  method RtuToAsciiFrame(rtu: array<byte>, rtuLen: nat, out: array<byte>, cap: nat) returns (ret: int)
    requires rtuLen <= rtu.Length && cap <= out.Length && rtu != out
    modifies out
    ensures match Encode(rtu[..rtuLen], cap)
            case None => ret == -1 && out[..] == old(out[..])
            case Some(frame) => ret == |frame| && ret <= cap && out[..ret] == frame && out[ret..] == old(out[ret..])
  {
    hide HexOf, Sum, Lrc, HexChar;
    if rtuLen < 4 {
      return -1;
    }
    var pduLen := rtuLen - 2;
    var need := 1 + pduLen * 2 + 4;
    if cap < need {
      return -1;
    }
    ghost var adu, after := rtu[..rtuLen], out[need..];
    ghost var pdu := Pdu(adu);
    assert pdu == rtu[..pduLen];
    var pos := 0;
    out[pos] := COLON; pos := pos + 1;
    EmptyHex();
    for i := 0 to pduLen
      invariant pos == 1 + 2 * i
      invariant out[..pos] == [COLON] + HexOf(rtu[..i])
      invariant out[need..] == after
      invariant rtu[..rtuLen] == adu
    {
      assert rtu[..i + 1] == rtu[..i] + [rtu[i]];
      HexOfOne(rtu[..i], rtu[i]);
      ghost var before := out[..pos];
      out[pos] := HexChar(rtu[i] / 16); pos := pos + 1;
      out[pos] := HexChar(rtu[i] % 16); pos := pos + 1;
      assert out[..pos] == before + [HexChar(rtu[i] / 16), HexChar(rtu[i] % 16)];
    }
    var lrc := ComputeLrc(rtu, pduLen);
    HexOfOne(pdu, lrc);
    ghost var digits := out[..pos];
    out[pos] := HexChar(lrc / 16); pos := pos + 1;
    out[pos] := HexChar(lrc % 16); pos := pos + 1;
    out[pos] := CR; pos := pos + 1;
    out[pos] := LF; pos := pos + 1;
    assert out[..pos] == digits + [HexChar(lrc / 16), HexChar(lrc % 16), CR, LF];
    assert out[..pos] == Frame(pdu + [lrc]);
    return pos;
  }

  const DIGITS: string := "0123456789ABCDEF"

  lemma {:induction false} HexByIndex(data: seq<byte>, i: nat)
    requires i < |data|
    ensures |HexOf(data)| == 2 * |data|
    ensures HexOf(data)[2 * i] as char == DIGITS[data[i] / 16] && HexOf(data)[2 * i + 1] as char == DIGITS[data[i] % 16]
  {
    hide HexChar;
    HexOfAppend(data, []);
    if i == 0 {
      HexCharIs(data[0] / 16);
      HexCharIs(data[0] % 16);
    } else {
      HexByIndex(data[1..], i - 1);
    }
  }

  lemma HexCharIs(n: nat)
    requires n < 16
    ensures HexChar(n) as char == DIGITS[n]
  {
    assert HexChar(n) as int == DIGITS[n] as int;
  }

  /** The frame, octet by octet: colon, two upper-case digits per octet of the PDU, high one first,
      two of the LRC, CR, LF. It is written exactly for four octets or more that fit. */
  lemma EncodeByIndex(rtu: seq<byte>, cap: nat)
    ensures Encode(rtu, cap).Some? <==> |rtu| >= 4 && 2 * |rtu| + 1 <= cap
    ensures Encode(rtu, cap).Some? ==>
              var (f, n, lrc) := (Encode(rtu, cap).value, |rtu| - 2, Lrc(rtu[..|rtu| - 2]));
              && |f| == 2 * n + 5 && f[0] as char == ':' && f[2 * n + 3] == 13 && f[2 * n + 4] == 10
              && (forall i :: 0 <= i < n ==>
                    f[2 * i + 1] as char == DIGITS[rtu[i] / 16] && f[2 * i + 2] as char == DIGITS[rtu[i] % 16])
              && f[2 * n + 1] as char == DIGITS[lrc / 16] && f[2 * n + 2] as char == DIGITS[lrc % 16]
  {
    hide HexOf, Lrc;
    if |rtu| >= 4 {
      var bin := Pdu(rtu) + [Lrc(Pdu(rtu))];
      HexOfAppend(bin, []);
      HexByIndex(bin, |rtu| - 2);
      forall i | 0 <= i < |rtu| - 2
        ensures Frame(bin)[2 * i + 1] as char == DIGITS[rtu[i] / 16]
                && Frame(bin)[2 * i + 2] as char == DIGITS[rtu[i] % 16]
      {
        HexByIndex(bin, i);
      }
    }
  }

  // --- Decoder ---

  // The digits between the colon and the line end.
  predicate Framed(ascii: seq<byte>) {
    |ascii| >= 10 && ascii[0] == COLON && ascii[|ascii| - 2..] == [CR, LF]
    && |ascii| % 2 == 1 && |ascii| <= 515
  }

  function Body(ascii: seq<byte>): seq<byte>
    requires |ascii| >= 3
  {
    ascii[1..|ascii| - 2]
  }

  function WithCrc(pdu: seq<byte>): (adu: seq<byte>) {
    Crc16.CrcIsAWord(pdu);
    pdu + [Crc16.Crc(pdu) % 256, Crc16.Crc(pdu) / 256]
  }

  function Decode(ascii: seq<byte>, cap: nat): Decoded {
    if !Framed(ascii) || Unhex(Body(ascii)).None? then Malformed
    else
      var bin := Unhex(Body(ascii)).value;
      var n := |bin| - 1;
      if n < 0 || Lrc(bin[..n]) != bin[n] then LrcMismatch
      else if cap < n + 2 then Malformed
      else Adu(WithCrc(bin[..n]))
  }

  // The digit loop: binLen pairs after the colon.
  method UnhexInto(ascii: array<byte>, binLen: nat, bin: array<byte>) returns (ok: bool)
    requires 1 + 2 * binLen <= ascii.Length && binLen <= bin.Length && ascii != bin
    modifies bin
    ensures match Unhex(ascii[1..1 + 2 * binLen])
            case None => !ok
            case Some(value) => ok && bin[..binLen] == value
  {
    hide Unhex, Nibble;
    ghost var hex := ascii[1..1 + 2 * binLen];
    EmptyHex();
    assert hex[..0] == [] && bin[..0] == [];
    for i := 0 to binLen
      invariant Unhex(hex[..2 * i]) == Some(bin[..i])
      invariant ascii[1..1 + 2 * binLen] == hex
    {
      var hi, lo := Nibble(ascii[1 + i * 2]), Nibble(ascii[1 + i * 2 + 1]);
      assert hex[2 * i] == ascii[1 + i * 2] && hex[2 * i + 1] == ascii[1 + i * 2 + 1];
      assert hex[..2 * i + 2] == hex[..2 * i] + [hex[2 * i], hex[2 * i + 1]];
      UnhexAppend(hex[..2 * i], [hex[2 * i], hex[2 * i + 1]]);
      UnhexPair(hex[2 * i], hex[2 * i + 1]);
      if hi < 0 || lo < 0 {
        assert hex == hex[..2 * i + 2] + hex[2 * i + 2..];
        UnhexAppend(hex[..2 * i + 2], hex[2 * i + 2..]);
        return false;
      }
      ghost var done := bin[..i];
      bin[i] := hi * 16 + lo;
      assert bin[..i + 1] == done + [hi * 16 + lo];
    }
    assert hex[..2 * binLen] == hex;
    return true;
  }

  // The copy of the PDU and the two CRC octets, low byte first.
  method PutWithCrc(bin: array<byte>, pduLen: nat, rtuOut: array<byte>)
    requires pduLen <= bin.Length && pduLen + 2 <= rtuOut.Length && bin != rtuOut
    modifies rtuOut
    ensures rtuOut[..pduLen + 2] == WithCrc(bin[..pduLen])
    ensures rtuOut[pduLen + 2..] == old(rtuOut[pduLen + 2..])
  {
    hide Crc16.Crc;
    ghost var pdu := bin[..pduLen];
    var crc := Crc16.Compute(bin, pduLen);
    assert crc == Crc16.Crc(pdu);
    forall i | 0 <= i < pduLen { rtuOut[i] := bin[i]; }
    assert rtuOut[..pduLen] == pdu && bin[..pduLen] == pdu;
    rtuOut[pduLen] := crc % 256;
    rtuOut[pduLen + 1] := crc / 256;
    assert rtuOut[..pduLen + 2] == rtuOut[..pduLen] + [crc % 256, crc / 256];
    assert rtuOut[..pduLen] == pdu && bin[..pduLen] == pdu;
  }

  /** rs232_ascii_decode_response: unpacks the digits, checks the LRC, appends a fresh CRC. */
  method AsciiDecodeResponse(ascii: array<byte>, asciiLen: nat, rtuOut: array<byte>, cap: nat)
    returns (ret: int, rtuLen: nat)
    requires asciiLen <= ascii.Length && cap <= rtuOut.Length && ascii != rtuOut
    modifies rtuOut
    ensures match Decode(ascii[..asciiLen], cap)
            case Adu(rtu) => ret == 0 && rtuLen == |rtu| <= cap && rtuOut[..rtuLen] == rtu
                             && rtuOut[rtuLen..] == old(rtuOut[rtuLen..])
            case LrcMismatch => ret == -1 && rtuOut[..] == old(rtuOut[..])
            case Malformed => ret == -2 && rtuOut[..] == old(rtuOut[..])
  {
    hide Unhex, Sum, Lrc, Nibble, Crc16.Crc;
    ghost var frame := ascii[..asciiLen];
    if asciiLen < 10 || ascii[0] != COLON || ascii[asciiLen - 2] != CR || ascii[asciiLen - 1] != LF {
      return -2, 0;
    }
    assert frame[asciiLen - 2..] == [CR, LF];
    var hexLen := asciiLen - 3;
    if hexLen % 2 != 0 || hexLen < 6 {
      return -2, 0;
    }
    var binLen := hexLen / 2;
    if binLen > 256 {
      return -2, 0;
    }
    var bin := new byte[256];
    assert Body(frame) == ascii[1..asciiLen - 2];
    assert 1 + 2 * binLen == asciiLen - 2;
    var ok := UnhexInto(ascii, binLen, bin);
    if !ok {
      return -2, 0;
    }
    var pduLen := binLen - 1;
    ghost var value, pdu := bin[..binLen], bin[..pduLen];
    assert Unhex(Body(frame)) == Some(value) && value[..pduLen] == pdu && value[pduLen] == bin[pduLen];
    var lrc := ComputeLrc(bin, pduLen);
    if lrc != bin[pduLen] {
      return -1, 0;
    }
    if cap < pduLen + 2 {
      return -2, 0;
    }
    assert Decode(frame, cap) == Adu(WithCrc(pdu));
    PutWithCrc(bin, pduLen, rtuOut);
    return 0, pduLen + 2;
  }

  // --- Encoding and decoding undo each other ---

  lemma FrameParts(bin: seq<byte>)
    ensures |Frame(bin)| == 2 * |bin| + 3 && Body(Frame(bin)) == HexOf(bin)
    ensures Framed(Frame(bin)) <==> 4 <= |bin| <= 256
    ensures Unhex(Body(Frame(bin))) == Some(bin)
  {
    hide HexOf, Unhex;
    HexOfAppend(bin, []);
    UnhexInvertsHex(bin);
    assert Frame(bin)[|Frame(bin)| - 2..] == [CR, LF];
  }

  /** What the encoder emits is decoded again exactly when the ADU has 5 to 257 octets and fits
      the caller's buffer; the result is the same PDU under its true CRC. Four-octet ADUs are
      encoded but then refused, and so are those of 258 and 259 octets. */
  lemma RoundTrip(rtu: seq<byte>, cap: nat)
    requires Encode(rtu, FRAME_MAX).Some?
    ensures Decode(Encode(rtu, FRAME_MAX).value, cap) ==
            if 5 <= |rtu| <= 257 && |rtu| <= cap then Adu(WithCrc(Pdu(rtu))) else Malformed
  {
    var pdu := Pdu(rtu);
    var bin := pdu + [Lrc(pdu)];
    FrameParts(bin);
    assert bin[..|bin| - 1] == pdu;
  }

  /** Hence the very ADU comes back exactly when its CRC was right, that is, when the CRC over
      all of it is zero. */
  lemma RoundTripIsIdentityIff(rtu: seq<byte>, cap: nat)
    requires 5 <= |rtu| <= 257 && |rtu| <= cap
    ensures Encode(rtu, FRAME_MAX).Some?
    ensures Decode(Encode(rtu, FRAME_MAX).value, cap) == Adu(rtu) <==> Crc16.Crc(rtu) == 0
  {
    RoundTrip(rtu, cap);
    var (pdu, n) := (Pdu(rtu), |rtu|);
    assert rtu == pdu + [rtu[n - 2], rtu[n - 1]];
    Crc16.CheckValueZeroIff(pdu, rtu[n - 2], rtu[n - 1]);
    assert WithCrc(pdu) == rtu <==> rtu[n - 2] == WithCrc(pdu)[n - 2] && rtu[n - 1] == WithCrc(pdu)[n - 1];
  }

  /** A frame is accepted exactly when, in upper case, it is the encoding of some ADU of 5 to
      257 octets that fits; and the ADU it decodes to is such a one. */
  lemma AcceptedIff(ascii: seq<byte>, cap: nat)
    ensures Decode(ascii, cap).Adu? <==>
            exists rtu: seq<byte> :: 5 <= |rtu| <= 257 && |rtu| <= cap && Encode(rtu, FRAME_MAX) == Some(Upper(ascii))
    ensures Decode(ascii, cap).Adu? ==>
            Encode(Decode(ascii, cap).rtu, FRAME_MAX) == Some(Upper(ascii))
  {
    if Decode(ascii, cap).Adu? {
      ReEncode(ascii, cap);
      assert 5 <= |Decode(ascii, cap).rtu| <= 257;
    }
    if rtu: seq<byte> :| 5 <= |rtu| <= 257 && |rtu| <= cap && Encode(rtu, FRAME_MAX) == Some(Upper(ascii)) {
      RoundTrip(rtu, cap);
      CaseDoesNotMatter(ascii, cap);
    }
  }

  /** The LRC is blamed exactly for a frame of the right shape, all digits, whose octets do not sum
      to zero. */
  lemma MismatchIff(ascii: seq<byte>, cap: nat)
    ensures Decode(ascii, cap) == LrcMismatch <==>
            && 9 <= |ascii| - 2 <= 513 && |ascii| % 2 == 1
            && ascii[0] as char == ':' && ascii[|ascii| - 2] == 13 && ascii[|ascii| - 1] == 10
            && Unhex(ascii[1..|ascii| - 2]).Some? && Sum(Unhex(ascii[1..|ascii| - 2]).value) % 256 != 0
  {
    hide Unhex, Sum, Lrc;
    if |ascii| >= 10 && |ascii| % 2 == 1 {
      assert ascii[|ascii| - 2..] == [ascii[|ascii| - 2], ascii[|ascii| - 1]];
      UnhexAppend(Body(ascii), []);
      if Unhex(Body(ascii)).Some? {
        LrcCompletesTheSum(Unhex(Body(ascii)).value);
      }
    }
  }

  lemma ReEncode(ascii: seq<byte>, cap: nat)
    requires Decode(ascii, cap).Adu?
    ensures 5 <= |Decode(ascii, cap).rtu| <= 257
    ensures Encode(Decode(ascii, cap).rtu, FRAME_MAX) == Some(Upper(ascii))
  {
    hide Unhex, HexOf, Lrc, Crc16.Crc;
    var hex := Body(ascii);
    var bin := Unhex(hex).value;
    UnhexAppend(hex, []);
    HexInvertsUnhex(hex);
    var n := |bin| - 1;
    assert bin == bin[..n] + [bin[n]];
    assert Pdu(Decode(ascii, cap).rtu) == bin[..n];
    assert Upper(ascii) == [COLON] + Upper(hex) + [CR, LF];
  }

  lemma CaseDoesNotMatter(ascii: seq<byte>, cap: nat)
    ensures Decode(Upper(ascii), cap) == Decode(ascii, cap)
  {
    if |ascii| >= 10 {
      var n := |ascii|;
      assert ascii[n - 2..] == [ascii[n - 2], ascii[n - 1]];
      assert Upper(ascii)[n - 2..] == [UpperChar(ascii[n - 2]), UpperChar(ascii[n - 1])];
      assert Body(Upper(ascii)) == Upper(Body(ascii));
      if n % 2 == 1 {
        HexInvertsUnhex(Body(ascii));
      }
    }
  }

  /** Changing any single octet of what an accepted frame carries, LRC included, is always
      caught by the LRC, however the new frame is written. */
  lemma OneOctetChangeRejected(good: seq<byte>, bad: seq<byte>, cap: nat, bin: seq<byte>, i: nat, x: byte)
    requires Decode(good, cap).Adu? && Unhex(Body(good)) == Some(bin)
    requires i < |bin| && x != bin[i]
    requires Framed(bad) && Unhex(Body(bad)) == Some(bin[i := x])
    ensures Decode(bad, cap) == LrcMismatch
  {
    hide Sum, Lrc, Unhex, Crc16.Crc;
    var changed := bin[i := x];
    LrcCompletesTheSum(bin);
    LrcCompletesTheSum(changed);
    SumOfUpdate(bin, i, x);
    ComplementIff(Sum(bin[..i]) + Sum(bin[i + 1..]), bin[i], x);
    assert Lrc(changed[..|changed| - 1]) != changed[|changed| - 1];
  }

  lemma SumOfUpdate(bin: seq<byte>, i: nat, x: byte)
    requires i < |bin|
    ensures Sum(bin) == Sum(bin[..i]) + Sum(bin[i + 1..]) + bin[i]
    ensures Sum(bin[i := x]) == Sum(bin[..i]) + Sum(bin[i + 1..]) + x
  {
    assert bin == bin[..i] + [bin[i]] + bin[i + 1..];
    assert bin[i := x] == bin[..i] + [x] + bin[i + 1..];
    SumAppend(bin[..i] + [bin[i]], bin[i + 1..]);
    SumAppend(bin[..i] + [x], bin[i + 1..]);
    SumAppend(bin[..i], [bin[i]]);
    SumAppend(bin[..i], [x]);
    assert Sum([bin[i]]) == bin[i] && Sum([x]) == x;
  }
}
