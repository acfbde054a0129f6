/** The MessagePack payload of the UDP stream: an array of 28 fields. A 32-bit float travels as
    its bit pattern; which pattern float32_round_2decimals produces is a parameter, and what the
    rounding does to a number is stated over the reals. */
module MsgpackAdc {
  import opened Bytes
  import opened Options
  import opened Numerals
  import Calendar

  const LINE_LEN: nat := 51 // ADC_LINE_MAX_LEN, with the terminator
  const LINE_CHARS: nat := 50
  const CHANNELS: nat := 8
  const TS_LEN: nat := 17
  const TX_BUF: nat := 384 // UDP_TX_BUF_SIZE

  type Word32 = x: int | 0 <= x < 0x1_0000_0000

  // adc_snapshot_t: the line array, the time, the samples and the channel count.
  datatype Snapshot = Snapshot(
    line: seq<byte>, time: Calendar.DateTime, msec: nat, sampleCount: nat,
    raw: seq<Word32>, minVal: seq<Word32>, maxVal: seq<Word32>, chCount: nat)

  predicate Shaped(snap: Snapshot) {
    |snap.line| == LINE_LEN && |snap.raw| == |snap.minVal| == |snap.maxVal| == CHANNELS
  }

  // --- MessagePack values, after the specification's section "Formats" ---

  datatype RawValue = Str(s: seq<byte>) | Float32(bits: Word32) | Uint8(n: byte)

  // Strings longer than 255 octets are never written.
  type MpValue = v: RawValue | v.Str? ==> |v.s| < 256 witness Uint8(0)

  function Be32(w: Word32): (s: seq<byte>)
    ensures |s| == 4
  {
    [w / 0x100_0000, w / 0x1_0000 % 256, w / 0x100 % 256, w % 256]
  }

  function FromBe32(a: byte, b: byte, c: byte, d: byte): Word32 {
    ((a * 256 + b) * 256 + c) * 256 + d
  }

  lemma Be32RoundTrip(w: Word32)
    ensures var s := Be32(w); FromBe32(s[0], s[1], s[2], s[3]) == w
  {
    var (a, b, c) := (w / 0x100_0000, w / 0x1_0000, w / 0x100);
    assert b == 256 * a + b % 256;
    assert c == 256 * b + c % 256;
    assert w == 256 * c + w % 256;
  }

  // A string of n octets behind a header of h.
  function ReadString(s: seq<byte>, h: nat, n: byte): Option<(MpValue, seq<byte>)> {
    if |s| < h + n then None else Some((Str(s[h..h + n]), s[h + n..]))
  }

  // One value at the front of s, and what follows it: fixstr, str 8, float 32 and uint 8.
  function ReadValue(s: seq<byte>): Option<(MpValue, seq<byte>)> {
    if s == [] then None
    else if 0xa0 <= s[0] <= 0xbf then ReadString(s, 1, s[0] - 0xa0)
    else if s[0] == 0xd9 then
      if |s| < 2 then None else ReadString(s, 2, s[1])
    else if s[0] == 0xca then
      if |s| < 5 then None else Some((Float32(FromBe32(s[1], s[2], s[3], s[4])), s[5..]))
    else if s[0] == 0xcc then
      if |s| < 2 then None else Some((Uint8(s[1]), s[2..]))
    else None
  }

  function ReadValues(n: nat, s: seq<byte>): Option<(seq<MpValue>, seq<byte>)> {
    if n == 0 then Some(([], s))
    else match ReadValue(s)
      case None => None
      case Some((v, rest)) =>
        match ReadValues(n - 1, rest)
        case None => None
        case Some((vs, end)) => Some(([v] + vs, end))
  }

  // array 16 at the front of s
  function ReadArray(s: seq<byte>): Option<(seq<MpValue>, seq<byte>)> {
    if |s| < 3 || s[0] != 0xdc then None else ReadValues(Be16(s[1], s[2]), s[3..])
  }

  // What the append functions write.
  function Wire(v: MpValue): seq<byte>
  {
    match v
    case Str(s) => (if |s| <= 31 then [0xa0 + |s|] else [0xd9, |s|]) + s
    case Float32(bits) => [0xca] + Be32(bits)
    case Uint8(n) => [0xcc, n]
  }

  function AllBytes(vs: seq<MpValue>): seq<byte>
  {
    if vs == [] then [] else Wire(vs[0]) + AllBytes(vs[1..])
  }

  lemma {:induction false} AllBytesAppend(a: seq<MpValue>, b: seq<MpValue>)
    ensures AllBytes(a + b) == AllBytes(a) + AllBytes(b)
  {
    hide Wire;
    if a == [] {
      assert a + b == b;
    } else {
      assert (a + b)[0] == a[0] && (a + b)[1..] == a[1..] + b;
      AllBytesAppend(a[1..], b);
    }
  }

  lemma AllBytesSnoc(a: seq<MpValue>, v: MpValue)
    ensures AllBytes(a + [v]) == AllBytes(a) + Wire(v)
  {
    AllBytesAppend(a, [v]);
    assert AllBytes([v]) == Wire(v) + AllBytes([]);
  }

  lemma ReadsWhatIsWritten(v: MpValue, more: seq<byte>)
    ensures ReadValue(Wire(v) + more) == Some((v, more))
  {
    var s := Wire(v) + more;
    match v
    case Str(t) =>
      var h := if |t| <= 31 then 1 else 2;
      assert s[h..h + |t|] == t && s[h + |t|..] == more;
    case Float32(bits) =>
      Be32RoundTrip(bits);
      assert s[5..] == more;
    case Uint8(_) =>
      assert s[2..] == more;
  }

  lemma {:induction false} ReadsAllWritten(vs: seq<MpValue>, more: seq<byte>)
    ensures ReadValues(|vs|, AllBytes(vs) + more) == Some((vs, more))
    decreases |vs|
  {
    hide ReadValue, Wire;
    if vs == [] {
      assert [] + more == more;
    } else {
      assert AllBytes(vs) + more == Wire(vs[0]) + (AllBytes(vs[1..]) + more);
      ReadsWhatIsWritten(vs[0], AllBytes(vs[1..]) + more);
      ReadsAllWritten(vs[1..], more);
      assert [vs[0]] + vs[1..] == vs;
    }
  }

  // --- The fields of a snapshot ---

  // Characters before the terminator, from i on, at most to the end of the array.
  function Terminated(line: seq<byte>, i: nat): (n: nat)
    requires i <= |line|
    ensures i <= n <= |line| && 0 !in line[i..n] && (n < |line| ==> line[n] == 0)
    decreases |line| - i
  {
    if i == |line| || line[i] == 0 then i
    else
      var n := Terminated(line, i + 1);
      assert line[i..n] == [line[i]] + line[i + 1..n];
      n
  }

  function IdOf(line: seq<byte>): (s: seq<byte>)
    requires |line| == LINE_LEN
    ensures |s| <= LINE_CHARS
  {
    var n := Terminated(line, 0);
    line[..if n > LINE_CHARS then LINE_CHARS else n]
  }

  // fmt_timestamp_udp17
  function Stamp(t: Calendar.DateTime, msec: nat): seq<byte> {
    ZeroPadded(t.year, 4) + ZeroPadded(t.month, 2) + ZeroPadded(t.day, 2)
    + ZeroPadded(t.hour, 2) + ZeroPadded(t.min, 2) + ZeroPadded(t.sec, 2) + ZeroPadded(msec, 3)
  }

  /** The time stamp has its 17 characters exactly when every field fits its columns, and then
      the fields can be read off the columns again. */
  lemma StampFitsIff(t: Calendar.DateTime, msec: nat)
    ensures |Stamp(t, msec)| == TS_LEN <==>
            t.year < 10000 && t.month < 100 && t.day < 100 && t.hour < 100 && t.min < 100 && t.sec < 100 && msec < 1000
    ensures |Stamp(t, msec)| == TS_LEN ==>
              var s := Stamp(t, msec);
              && Value(0, s[..4]) == t.year && Value(0, s[4..6]) == t.month && Value(0, s[6..8]) == t.day
              && Value(0, s[8..10]) == t.hour && Value(0, s[10..12]) == t.min && Value(0, s[12..14]) == t.sec
              && Value(0, s[14..]) == msec
  {
    hide ZeroPadded, Value, Decimal;
    assert Pow10(4) == 10000 && Pow10(2) == 100 && Pow10(3) == 1000;
    Column(t.year, 4); Column(t.month, 2); Column(t.day, 2);
    Column(t.hour, 2); Column(t.min, 2); Column(t.sec, 2); Column(msec, 3);
    var s := Stamp(t, msec);
    if |s| == TS_LEN {
      assert s[..4] == ZeroPadded(t.year, 4) && s[4..6] == ZeroPadded(t.month, 2) && s[6..8] == ZeroPadded(t.day, 2);
      assert s[8..10] == ZeroPadded(t.hour, 2) && s[10..12] == ZeroPadded(t.min, 2);
      assert s[12..14] == ZeroPadded(t.sec, 2) && s[14..] == ZeroPadded(msec, 3);
    }
  }

  lemma Column(v: nat, width: nat)
    requires width >= 1
    ensures |ZeroPadded(v, width)| >= width
    ensures |ZeroPadded(v, width)| == width <==> v < Pow10(width)
    ensures Value(0, ZeroPadded(v, width)) == v
  {
    WidthIff(v, width);
    ValueOfZeroPadded(v, width);
  }

  // channel_volts: channels beyond the count read as 0.0.
  function ChannelVolts(snap: Snapshot, arr: seq<Word32>, ch: nat): Word32
    requires |arr| == CHANNELS && ch < CHANNELS
  {
    if ch < snap.chCount then arr[ch] else 0
  }

  function FloatFields(round: Word32 -> Word32, snap: Snapshot, arr: seq<Word32>, n: nat): (vs: seq<MpValue>)
    requires |arr| == CHANNELS && n <= CHANNELS
    ensures |vs| == n
    ensures forall i :: 0 <= i < n ==> vs[i] == Float32(round(ChannelVolts(snap, arr, i)))
  {
    if n == 0 then []
    else FloatFields(round, snap, arr, n - 1) + [Float32(round(ChannelVolts(snap, arr, n - 1)))]
  }

  function Fields(round: Word32 -> Word32, snap: Snapshot, err: byte): (vs: seq<MpValue>)
    requires Shaped(snap) && |Stamp(snap.time, snap.msec)| == TS_LEN
    ensures |vs| == 28
  {
    [Str(IdOf(snap.line)), Str(Stamp(snap.time, snap.msec))]
    + FloatFields(round, snap, snap.raw, CHANNELS)
    + FloatFields(round, snap, snap.minVal, CHANNELS)
    + FloatFields(round, snap, snap.maxVal, CHANNELS)
    + [Uint8(if snap.sampleCount > 255 then 255 else snap.sampleCount), Uint8(err)]
  }

  const HEADER: seq<byte> := [0xdc, 0x00, 0x1c]

  // The size check of the encoder.
  function Need(snap: Snapshot): nat
    requires Shaped(snap)
  {
    var n := |IdOf(snap.line)|;
    3 + (if n <= 31 then 1 + n else 2 + n) + (1 + TS_LEN) + 24 * 5 + 2 * 2
  }

  predicate Encodable(snap: Snapshot, bufLen: nat)
    requires Shaped(snap)
  {
    1 <= snap.chCount <= CHANNELS && |Stamp(snap.time, snap.msec)| == TS_LEN && bufLen >= Need(snap)
  }

  function Payload(round: Word32 -> Word32, snap: Snapshot, err: byte): seq<byte>
    requires Shaped(snap) && |Stamp(snap.time, snap.msec)| == TS_LEN
  {
    HEADER + AllBytes(Fields(round, snap, err))
  }

  // --- The encoder ---

  // The write pointer p and the count of octets left behind it.
  class Cursor {
    const buf: array<byte>
    var p: nat
    var remain: nat

    ghost predicate Valid()
      reads this
    {
      p + remain == buf.Length
    }

    constructor (buf: array<byte>)
      ensures Valid() && this.buf == buf && p == 0
    {
      this.buf := buf;
      p, remain := 0, buf.Length;
    }

    // Copies s to the write pointer; the caller has checked the room.
    method Put(s: seq<byte>)
      requires Valid() && |s| <= remain
      modifies this`p, this`remain, buf
      ensures Valid() && p == old(p) + |s| && buf[..p] == old(buf[..p]) + s
    {
      forall i | 0 <= i < |s| { buf[p + i] := s[i]; }
      p, remain := p + |s|, remain - |s|;
    }

    method AppendFixstr(s: seq<byte>) returns (ok: bool)
      requires Valid()
      modifies this`p, this`remain, buf
      ensures Valid() && (ok <==> |s| <= 255 && old(remain) >= |s| + if |s| <= 31 then 1 else 2)
      ensures ok ==> p == old(p) + |s| + (if |s| <= 31 then 1 else 2)
      ensures ok ==> buf[..p] == old(buf[..p]) + Wire(Str(s))
      ensures !ok ==> p == old(p) && buf[..] == old(buf[..])
    {
      if |s| > 255 {
        return false;
      }
      var need := if |s| <= 31 then 1 + |s| else 2 + |s|;
      if remain < need {
        return false;
      }
      hide Wire;
      ghost var was := buf[..p];
      if |s| <= 31 {
        Put([0xa0 + |s|]);
      } else {
        Put([0xd9, |s|]);
      }
      ghost var head := if |s| <= 31 then [0xa0 + |s|] else [0xd9, |s|];
      assert buf[..p] == was + head;
      Put(s);
      WireOfStr(s);
      ConcatAssociates(was, head, s);
      return true;
    }

    method AppendFloat32(round: Word32 -> Word32, v: Word32) returns (ok: bool)
      requires Valid()
      modifies this`p, this`remain, buf
      ensures Valid() && (ok <==> old(remain) >= 5)
      ensures ok ==> p == old(p) + 5 && buf[..p] == old(buf[..p]) + Wire(Float32(round(v)))
      ensures !ok ==> p == old(p) && buf[..] == old(buf[..])
    {
      if remain < 5 {
        return false;
      }
      Put([0xca]);
      Put(Be32(round(v)));
      return true;
    }

    method AppendUint8(v: byte) returns (ok: bool)
      requires Valid()
      modifies this`p, this`remain, buf
      ensures Valid() && (ok <==> old(remain) >= 2)
      ensures ok ==> p == old(p) + 2 && buf[..p] == old(buf[..p]) + Wire(Uint8(v))
      ensures !ok ==> p == old(p) && buf[..] == old(buf[..])
    {
      if remain < 2 {
        return false;
      }
      Put([0xcc, v]);
      return true;
    }

    // The header, the device id and the time stamp.
    method PutStrings(id: seq<byte>, ts: seq<byte>) returns (ok: bool)
      requires Valid() && p == 0 && |id| <= LINE_CHARS && |ts| == TS_LEN
      requires remain >= 3 + (|id| + if |id| <= 31 then 1 else 2) + 1 + TS_LEN
      modifies this`p, this`remain, buf
      ensures Valid() && ok && p == 3 + (|id| + if |id| <= 31 then 1 else 2) + 1 + TS_LEN
      ensures buf[..p] == HEADER + AllBytes([Str(id), Str(ts)])
    {
      hide AllBytes, Wire;
      Put(HEADER);
      ghost var (head, a, b) := (buf[..p], Wire(Str(id)), Wire(Str(ts)));
      assert head == HEADER;
      ok := AppendFixstr(id);
      ghost var soFar := buf[..p];
      ok := AppendFixstr(ts);
      TwoStrings(id, ts);
      assert buf[..p] == soFar + b && soFar == head + a;
      ConcatAssociates(head, a, b);
    }

    method PutCounters(sampling: byte, err: byte, ghost done: seq<MpValue>) returns (ok: bool)
      requires Valid() && buf[..p] == HEADER + AllBytes(done) && remain >= 4
      modifies this`p, this`remain, buf
      ensures Valid() && ok && p == old(p) + 4
      ensures buf[..p] == HEADER + AllBytes(done + [Uint8(sampling), Uint8(err)])
    {
      hide AllBytes;
      ok := AppendUint8(sampling);
      ok := AppendUint8(err);
      AllBytesSnoc(done, Uint8(sampling));
      AllBytesSnoc(done + [Uint8(sampling)], Uint8(err));
      assert done + [Uint8(sampling)] + [Uint8(err)] == done + [Uint8(sampling), Uint8(err)];
    }

    // One of the three loops over the channels.
    method AppendChannels(round: Word32 -> Word32, snap: Snapshot, arr: seq<Word32>, ghost done: seq<MpValue>)
      returns (ok: bool)
      requires Valid() && |arr| == CHANNELS
      requires buf[..p] == HEADER + AllBytes(done)
      modifies this`p, this`remain, buf
      ensures Valid() && (old(remain) >= 5 * CHANNELS ==> ok)
      ensures ok ==> p == old(p) + 5 * CHANNELS
      ensures ok ==> buf[..p] == HEADER + AllBytes(done + FloatFields(round, snap, arr, CHANNELS))
    {
      hide AllBytes, FloatFields;
      FloatFieldsStep(round, snap, arr, 0);
      assert done + [] == done;
      for i := 0 to CHANNELS
        invariant Valid() && p == old(p) + 5 * i
        invariant buf[..p] == HEADER + AllBytes(done + FloatFields(round, snap, arr, i))
      {
        ok := AppendFloat32(round, ChannelVolts(snap, arr, i));
        if !ok {
          return;
        }
        ghost var v := Float32(round(ChannelVolts(snap, arr, i)));
        FloatFieldsStep(round, snap, arr, i + 1);
        AllBytesSnoc(done + FloatFields(round, snap, arr, i), v);
        assert done + FloatFields(round, snap, arr, i + 1) == (done + FloatFields(round, snap, arr, i)) + [v];
      }
      ok := true;
    }
  }

  lemma WireOfStr(s: seq<byte>)
    requires |s| < 256
    ensures Wire(Str(s)) == (if |s| <= 31 then [0xa0 + |s|] else [0xd9, |s|]) + s
  {}

  lemma TwoStrings(a: seq<byte>, b: seq<byte>)
    requires |a| < 256 && |b| < 256
    ensures AllBytes([Str(a), Str(b)]) == Wire(Str(a)) + Wire(Str(b))
  {
    hide Wire;
    assert [Str(a), Str(b)][1..] == [Str(b)];
    assert AllBytes([Str(b)]) == Wire(Str(b)) + AllBytes([]);
  }

  lemma FloatFieldsStep(round: Word32 -> Word32, snap: Snapshot, arr: seq<Word32>, n: nat)
    requires |arr| == CHANNELS && n <= CHANNELS
    ensures n == 0 ==> FloatFields(round, snap, arr, n) == []
    ensures n > 0 ==>
              FloatFields(round, snap, arr, n)
              == FloatFields(round, snap, arr, n - 1) + [Float32(round(ChannelVolts(snap, arr, n - 1)))]
  {}

  method DeviceIdLen(line: seq<byte>) returns (n: nat)
    requires |line| == LINE_LEN
    ensures n <= LINE_CHARS && line[..n] == IdOf(line)
  {
    n := 0;
    while n < LINE_LEN && line[n] != 0
      invariant n <= LINE_LEN && Terminated(line, n) == Terminated(line, 0)
    {
      n := n + 1;
    }
    if n > LINE_CHARS {
      n := LINE_CHARS;
    }
  }

  // The 28 fields of a snapshot, one by one.
  predicate Carries(round: Word32 -> Word32, snap: Snapshot, err: byte, vs: seq<MpValue>)
    requires Shaped(snap)
  {
    && |vs| == 28
    && vs[0].Str? && |vs[0].s| <= 50 && vs[0].s == snap.line[..|vs[0].s|] && 0 !in vs[0].s
    && (|vs[0].s| < 50 ==> snap.line[|vs[0].s|] == 0)
    && vs[1] == Str(Stamp(snap.time, snap.msec))
    && (forall i :: 0 <= i < 8 ==> vs[2 + i] == Float32(round(if i < snap.chCount then snap.raw[i] else 0)))
    && (forall i :: 0 <= i < 8 ==> vs[10 + i] == Float32(round(if i < snap.chCount then snap.minVal[i] else 0)))
    && (forall i :: 0 <= i < 8 ==> vs[18 + i] == Float32(round(if i < snap.chCount then snap.maxVal[i] else 0)))
    && vs[26] == Uint8(if snap.sampleCount < 255 then snap.sampleCount else 255)
    && vs[27] == Uint8(err)
  }

  lemma FieldsCarry(round: Word32 -> Word32, snap: Snapshot, err: byte)
    requires Shaped(snap) && |Stamp(snap.time, snap.msec)| == TS_LEN
    ensures Carries(round, snap, err, Fields(round, snap, err))
  {
    hide Stamp, IdOf, FloatFields;
    var vs := Fields(round, snap, err);
    IdIs(snap.line);
    var (a, b, c) := (FloatFields(round, snap, snap.raw, 8), FloatFields(round, snap, snap.minVal, 8),
                      FloatFields(round, snap, snap.maxVal, 8));
    assert forall i :: 0 <= i < 8 ==> vs[2 + i] == a[i] && vs[10 + i] == b[i] && vs[18 + i] == c[i];
  }

  lemma IdIs(line: seq<byte>)
    requires |line| == LINE_LEN
    ensures var id := IdOf(line);
            |id| <= 50 && id == line[..|id|] && 0 !in id && (|id| < 50 ==> line[|id|] == 0)
  {
    var n := Terminated(line, 0);
    assert forall c :: c in IdOf(line) ==> c in line[0..n];
  }

  /** A MessagePack decoder recovers all 28 fields, whatever follows them. */
  lemma PayloadReadsBack(round: Word32 -> Word32, snap: Snapshot, err: byte, more: seq<byte>)
    requires Shaped(snap) && |Stamp(snap.time, snap.msec)| == TS_LEN
    ensures ReadArray(Payload(round, snap, err) + more) == Some((Fields(round, snap, err), more))
    ensures Carries(round, snap, err, Fields(round, snap, err))
  {
    FieldsCarry(round, snap, err);
    hide AllBytes, Fields, ReadValues;
    var vs := Fields(round, snap, err);
    var tail := AllBytes(vs) + more;
    var s := HEADER + tail;
    ConcatAssociates(HEADER, AllBytes(vs), more);
    assert s[0] == 0xdc && s[1] == 0 && s[2] == 28 && s[3..] == tail;
    ReadsAllWritten(vs, more);
  }

  /** msgpack_encode_adc_snapshot: fails exactly when the channel count or the time stamp is out
      of range or the buffer is smaller than `need`; otherwise no append fails and exactly `need`
      octets are written, from which a decoder recovers the snapshot field by field. */
  method EncodeSnapshot(round: Word32 -> Word32, snap: Snapshot, err: byte, buf: array<byte>) returns (ret: int)
    requires Shaped(snap)
    modifies buf
    ensures !Encodable(snap, buf.Length) ==> ret == -1 && buf[..] == old(buf[..])
    ensures Encodable(snap, buf.Length) ==>
              ret == Need(snap) && ret <= buf.Length && buf[..ret] == Payload(round, snap, err)
    ensures Encodable(snap, buf.Length) ==>
              match ReadArray(buf[..ret])
              case Some((vs, rest)) => rest == [] && Carries(round, snap, err, vs)
              case None => false
  {
    hide AllBytes, FloatFields, Stamp, ZeroPadded, Carries, ReadArray;
    if snap.chCount == 0 || snap.chCount > CHANNELS {
      return -1;
    }
    var idLen := DeviceIdLen(snap.line);
    var ts := Stamp(snap.time, snap.msec);
    if |ts| != TS_LEN {
      return -1;
    }
    var sampling: byte := if snap.sampleCount > 255 then 255 else snap.sampleCount;
    var need := 3 + (if idLen <= 31 then 1 + idLen else 2 + idLen) + (1 + TS_LEN) + 24 * 5 + 2 * 2;
    if buf.Length < need {
      return -1;
    }
    var c := new Cursor(buf);
    var ok := c.PutStrings(snap.line[..idLen], ts);
    ghost var d0 := [Str(IdOf(snap.line)), Str(ts)];
    ok := c.AppendChannels(round, snap, snap.raw, d0);
    ghost var d1 := d0 + FloatFields(round, snap, snap.raw, CHANNELS);
    ok := c.AppendChannels(round, snap, snap.minVal, d1);
    ghost var d2 := d1 + FloatFields(round, snap, snap.minVal, CHANNELS);
    ok := c.AppendChannels(round, snap, snap.maxVal, d2);
    ghost var d3 := d2 + FloatFields(round, snap, snap.maxVal, CHANNELS);
    ok := c.PutCounters(sampling, err, d3);
    assert d3 + [Uint8(sampling), Uint8(err)] == Fields(round, snap, err);
    PayloadReadsBack(round, snap, err, []);
    assert Payload(round, snap, err) + [] == Payload(round, snap, err);
    return c.p;
  }

  /** Every snapshot the ADC task can publish, at any time of the gateway's clock, is encoded
      into the UDP buffer. */
  lemma PublishedSnapshotsEncode(snap: Snapshot, sec: nat)
    requires Shaped(snap) && sec < 0x1_0000_0000 && snap.time == Calendar.Civil(sec) && snap.msec < 1000
    requires snap.chCount == CHANNELS
    ensures Encodable(snap, TX_BUF)
  {
    hide Stamp;
    Calendar.CivilIsTimegmInverse(sec);
    Calendar.YearOfWord(sec);
    StampFitsIff(snap.time, snap.msec);
  }

  // --- Rounding ---

  // (long)(d + 0.5) and (long)(d - 0.5): conversion truncates towards zero.
  function Truncate(r: real): int {
    if r >= 0.0 then r.Floor else -((-r).Floor)
  }

  // float32_round_2decimals
  function Round2(x: real): real {
    var d := x * 100.0;
    var n := if d >= 0.0 then Truncate(d + 0.5) else Truncate(d - 0.5);
    n as real / 100.0
  }

  // The number of hundredths it returns.
  function Hundredths(x: real): int {
    var d := x * 100.0;
    if d >= 0.0 then (d + 0.5).Floor else -((0.5 - d).Floor)
  }

  lemma Round2IsHundredths(x: real)
    ensures Round2(x) == Hundredths(x) as real / 100.0
    ensures -0.5 <= Hundredths(x) as real - x * 100.0 <= 0.5
  {
    var d := x * 100.0;
    assert d < 0.0 ==> -(d - 0.5) == 0.5 - d;
  }

  /** No hundredth is nearer than the one it returns, and a hundredth is returned unchanged. */
  lemma Round2IsNearest(x: real, k: int)
    ensures Abs(Round2(x) - x) <= Abs(k as real / 100.0 - x)
    ensures x == k as real / 100.0 ==> Round2(x) == x
    ensures Round2(Round2(x)) == Round2(x)
  {
    Round2IsHundredths(x);
    var h := Hundredths(x);
    NearestInteger(x * 100.0, h, k);
    Round2IsHundredths(Round2(x));
    NearestInteger(Round2(x) * 100.0, Hundredths(Round2(x)), h);
  }

  function Abs(x: real): real {
    if x < 0.0 then -x else x
  }

  lemma NearestInteger(d: real, n: int, k: int)
    requires -0.5 <= n as real - d <= 0.5
    ensures Abs(n as real - d) <= Abs(k as real - d)
    ensures d == k as real ==> n == k
  {
    assert k <= n - 1 || k == n || k >= n + 1;
  }

  /** It is odd and monotone. */
  lemma Round2OddAndMonotone(x: real, y: real)
    ensures Round2(-x) == -Round2(x)
    ensures x <= y ==> Round2(x) <= Round2(y)
  {
    assert (-x) * 100.0 == -(x * 100.0);
    Round2IsHundredths(x);
    Round2IsHundredths(y);
    Round2IsHundredths(-x);
    FloorMonotone(x * 100.0 + 0.5, y * 100.0 + 0.5);
    FloorMonotone(0.5 - y * 100.0, 0.5 - x * 100.0);
  }

  lemma FloorMonotone(a: real, b: real)
    ensures a <= b ==> a.Floor <= b.Floor
  {}
}
