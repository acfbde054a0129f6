/** Cutting the slave's reply out of what the UART received: echo stripping by the predicted
    response length. Lengths: MODBUS Application Protocol V1.1b3, sections 6.1 to 6.6 and 6.12. */
module ResponseAlign {
  import opened Bytes

  const UNKNOWN: int := -1

  // rs232_modbus_expected_resp_len_from_req: octets of the reply, CRC included.
  function Expected(req: seq<byte>): (n: int)
    ensures n == UNKNOWN || 6 <= n <= 255
    ensures n != UNKNOWN ==> |req| >= 2 && req[1] < 0x80
  {
    if |req| < 2 || req[1] >= 0x80 then UNKNOWN
    else if req[1] == 0x01 || req[1] == 0x02 then
      if |req| < 8 then UNKNOWN
      else
        var qty := Be16(req[4], req[5]);
        if qty < 1 || qty > 2000 then UNKNOWN else 5 + (qty + 7) / 8
    else if req[1] == 0x03 || req[1] == 0x04 then
      if |req| < 6 then UNKNOWN
      else
        var qty := Be16(req[4], req[5]);
        if qty < 1 || qty > 125 then UNKNOWN else 5 + 2 * qty
    else if req[1] == 0x05 || req[1] == 0x06 || req[1] == 0x10 then 8
    else UNKNOWN
  }

  // fc | 0x80
  function ExceptionOf(fc: byte): byte {
    if fc < 0x80 then fc + 0x80 else fc
  }

  // The request's slave and function, or its exception, stand at i.
  predicate ReplyAt(req: seq<byte>, buf: seq<byte>, i: nat)
    requires |req| >= 2 && i + 1 < |buf|
  {
    buf[i] == req[0] && (buf[i + 1] == req[1] || buf[i + 1] == ExceptionOf(req[1]))
  }

  // The request's slave and any exception stand at i.
  predicate ExceptionAt(req: seq<byte>, buf: seq<byte>, i: nat)
    requires |req| >= 1 && i + 1 < |buf|
  {
    buf[i] == req[0] && buf[i + 1] >= 0x80
  }

  // The last of the first n positions that holds a reply, or -1.
  function LastReply(req: seq<byte>, buf: seq<byte>, n: nat): (at: int)
    requires |req| >= 2 && n < |buf|
    ensures -1 <= at < n
    ensures at >= 0 ==> ReplyAt(req, buf, at)
    ensures forall i: nat :: at < i < n ==> !ReplyAt(req, buf, i)
  {
    if n == 0 then -1 else if ReplyAt(req, buf, n - 1) then n - 1 else LastReply(req, buf, n - 1)
  }

  function LastException(req: seq<byte>, buf: seq<byte>, n: nat): (at: int)
    requires |req| >= 1 && n < |buf|
    ensures -1 <= at < n
    ensures at >= 0 ==> ExceptionAt(req, buf, at)
    ensures forall i: nat :: at < i < n ==> !ExceptionAt(req, buf, i)
  {
    if n == 0 then -1 else if ExceptionAt(req, buf, n - 1) then n - 1 else LastException(req, buf, n - 1)
  }

  predicate Doubled(buf: seq<byte>, e: nat) {
    |buf| == 2 * e && buf[..e] == buf[e..]
  }

  // Either nothing, or the octets [at, at + count) of the buffer.
  datatype Aligned = Refused | Slice(at: nat, count: nat)

  function Align(req: seq<byte>, buf: seq<byte>): (r: Aligned)
    requires |req| >= 1
    ensures r.Slice? ==> r.at + r.count <= |buf| && r.count >= 2
  {
    var e := Expected(req);
    if |buf| < 2 then Refused
    else if e > 0 then
      var len := if Doubled(buf, e) then e else |buf|;
      if len < e then Refused
      else
        var at := LastReply(req, buf, len - e + 1);
        Slice(if at >= 0 then at else 0, e)
    else
      var at := if |buf| < 5 then -1 else LastException(req, buf, |buf| - 4);
      if at >= 0 then Slice(at, 5) else Slice(0, |buf|)
  }

  function Cut(buf: seq<byte>, r: Aligned): seq<byte>
    requires r.Slice? ==> r.at + r.count <= |buf|
  {
    match r case Refused => [] case Slice(at, count) => buf[at..at + count]
  }

  // --- What the RTU path makes of it ---

  const RX_MAX: nat := 256

  // Return code and octets handed to the caller for what the line delivered, at most RX_MAX.
  datatype Reply = Reply(ret: int, resp: seq<byte>)

  const ETIMEDOUT: int := -116
  const EIO: int := -5

  function RtuReply(req: seq<byte>, rx: seq<byte>): (r: Reply)
    requires |req| >= 1 && |rx| <= RX_MAX
    ensures |r.resp| <= RX_MAX
    ensures r.ret == 0 <==> r.resp != []
  {
    if rx == [] then Reply(ETIMEDOUT, [])
    else match Align(req, rx)
      case Refused => Reply(EIO, [])
      case Slice(at, count) => Reply(0, rx[at..at + count])
  }

  // --- In place ---

  // memcmp(buf, buf + e, e) == 0
  method SameHalves(buf: array<byte>, e: nat) returns (same: bool)
    requires 2 * e <= buf.Length
    ensures same <==> Doubled(buf[..2 * e], e)
  {
    for i := 0 to e
      invariant buf[..i] == buf[e..e + i]
    {
      if buf[i] != buf[e + i] {
        assert buf[..2 * e][..e][i] != buf[..2 * e][e..][i];
        return false;
      }
    }
    assert buf[..2 * e][..e] == buf[..e] && buf[..2 * e][e..] == buf[e..2 * e];
    return true;
  }

  // The scan of the predicted-length branch.
  method FindReply(req: seq<byte>, buf: array<byte>, len: nat, e: nat) returns (at: int)
    requires |req| >= 2 && 2 <= e && len <= buf.Length
    ensures at == if len < e then -1 else LastReply(req, buf[..len], len - e + 1)
  {
    at := -1;
    var i := 0;
    while i + e <= len
      invariant i <= (if len < e then 0 else len - e + 1)
      invariant i > 0 ==> i < len
      invariant at == if i == 0 then -1 else LastReply(req, buf[..len], i)
    {
      if buf[i] == req[0] && (buf[i + 1] == req[1] || buf[i + 1] == ExceptionOf(req[1])) {
        at := i;
      }
      i := i + 1;
    }
  }

  // The scan of the branch without a prediction.
  method FindException(req: seq<byte>, buf: array<byte>, len: nat) returns (at: int)
    requires |req| >= 1 && len <= buf.Length
    ensures at == if len < 5 then -1 else LastException(req, buf[..len], len - 4)
  {
    at := -1;
    var i := 0;
    while i + 5 <= len
      invariant i <= (if len < 5 then 0 else len - 4)
      invariant at == if i == 0 then -1 else LastException(req, buf[..len], i)
    {
      if buf[i] == req[0] && buf[i + 1] >= 0x80 {
        at := i;
      }
      i := i + 1;
    }
  }

  method SlideToFront(buf: array<byte>, n: nat, at: nat, len: nat, count: nat)
    requires at + count <= len <= n <= buf.Length
    modifies buf
    ensures buf[..count] == old(buf[..n])[at..at + count]
    ensures buf[n..] == old(buf[n..])
  {
    ghost var (was, after) := (buf[..], buf[n..]);
    SliceOfPrefix(was, n, at, at + count);
    assert was[..n] == buf[..n] && was[at..at + count] == buf[at..at + count];
    if at > 0 {
      MoveDown(buf, at, len);
      assert forall k :: 0 <= k < count ==> buf[k] == was[at..at + count][k];
      assert forall k :: 0 <= k < buf.Length - n ==> buf[n..][k] == after[k];
    }
  }

  /** rs232_modbus_align_pass_through, in place: on success the reply stands at the front of buf
      and its length is returned; on failure nothing moves. */
  method AlignPassThrough(req: seq<byte>, buf: array<byte>, n: nat) returns (ret: int, n': nat)
    requires |req| >= 1 && n <= buf.Length
    modifies buf
    ensures buf[n..] == old(buf[n..])
    ensures match Align(req, old(buf[..n]))
            case Refused => ret == -1 && n' == n && buf[..] == old(buf[..])
            case Slice(at, count) => ret == 0 && n' == count && buf[..n'] == old(buf[..n])[at..at + count]
  {
    hide Expected, LastReply, LastException, ReplyAt, ExceptionAt;
    ghost var was := buf[..n];
    if n < 2 {
      return -1, n;
    }
    var len := n;
    var expected := Expected(req);
    if expected > 0 && len == expected * 2 {
      var same := SameHalves(buf, expected);
      if same {
        len := expected;
      }
    }
    if expected > 0 {
      var alignAt := FindReply(req, buf, len, expected);
      assert buf[..len] == was[..len];
      LastReplyInPrefix(req, was, len, expected);
      if alignAt != -1 {
        SlideToFront(buf, n, alignAt, len, expected);
        return 0, expected;
      }
      if len >= expected {
        assert buf[..expected] == was[0..0 + expected];
        return 0, expected;
      }
      return -1, n;
    }
    var alignAt := FindException(req, buf, len);
    if alignAt != -1 {
      SlideToFront(buf, n, alignAt, len, 5);
      return 0, 5;
    }
    return 0, len;
  }

  // The scan does not care what follows the octets it was shown.
  lemma LastReplyInPrefix(req: seq<byte>, buf: seq<byte>, len: nat, e: nat)
    requires |req| >= 2 && 2 <= e && len <= |buf|
    ensures len >= e ==> LastReply(req, buf[..len], len - e + 1) == LastReply(req, buf, len - e + 1)
  {
    if len >= e {
      LastReplyOfPrefix(req, buf, len, len - e + 1);
    }
  }

  lemma {:induction false} LastReplyOfPrefix(req: seq<byte>, buf: seq<byte>, len: nat, n: nat)
    requires |req| >= 2 && n < len <= |buf|
    ensures LastReply(req, buf[..len], n) == LastReply(req, buf, n)
  {
    if n > 0 {
      LastReplyOfPrefix(req, buf, len, n - 1);
    }
  }

  /** Echo stripping is exact: whatever precedes a reply of the predicted length, the reply and
      nothing else comes out, also when the line delivered the same reply twice. */
  lemma EchoStripped(req: seq<byte>, echo: seq<byte>, reply: seq<byte>)
    requires Expected(req) == |reply| && ReplyAt(req, reply, 0)
    ensures Align(req, echo + reply).Slice?
    ensures Cut(echo + reply, Align(req, echo + reply)) == reply
  {
    var buf := echo + reply;
    var e := |reply|;
    assert ReplyAt(req, buf, |echo|);
    if Doubled(buf, e) {
      assert buf[e..] == reply && buf[..e] == reply;
      assert ReplyAt(req, buf, 0);
      assert LastReply(req, buf, 1) == 0;
    } else {
      assert LastReply(req, buf, |echo| + 1) == |echo|;
    }
  }

  /** The aligner succeeds exactly when it has two octets and, where the length is predicted, at
      least that many. */
  lemma SucceedsIff(req: seq<byte>, buf: seq<byte>)
    requires |req| >= 1
    ensures Align(req, buf).Slice? <==> |buf| >= 2 && (Expected(req) == UNKNOWN || |buf| >= Expected(req))
  {}

  /** Whatever precedes it, a five-octet exception reply comes out exactly for requests whose reply
      length is not predicted. */
  lemma LoneException(req: seq<byte>, echo: seq<byte>, reply: seq<byte>)
    requires |req| >= 1 && |reply| == 5 && reply[0] == req[0] && reply[1] >= 0x80
    ensures Cut(echo + reply, Align(req, echo + reply)) == reply <==> Expected(req) == UNKNOWN
    ensures echo == [] && Expected(req) != UNKNOWN ==> Align(req, reply) == Refused
  {
    if echo == [] { assert echo + reply == reply; }
    assert ExceptionAt(req, echo + reply, |echo|);
    assert (echo + reply)[|echo|..] == reply;
  }

  /** Worse, of a single write's echo and its exception gathered together the echo is cut out, octet
      for octet a success, exactly when the request's slave and function do not stand again
      behind the first octet. */
  lemma FailedWriteSucceeds(req: seq<byte>, reply: seq<byte>)
    requires |req| == 8 && (req[1] == 0x05 || req[1] == 0x06)
    requires |reply| == 5 && reply[0] == req[0] && reply[1] == req[1] + 0x80
    ensures Align(req, req + reply) == Slice(0, 8) <==> forall i :: 1 <= i <= 5 ==> !ReplyAt(req, req + reply, i)
    ensures Align(req, req + reply) == Slice(0, 8) ==> RtuReply(req, req + reply) == Reply(0, req)
  {
    var buf := req + reply;
    assert ReplyAt(req, buf, 0);
    assert buf[0..8] == req;
    var at := LastReply(req, buf, 6);
    assert Align(req, buf) == Slice(if at >= 0 then at else 0, 8);
  }

  /** No length is predicted exactly for requests without a function, for functions other than the
      reads 1 to 4 and the writes 5, 6 and 16, and for reads cut short before their quantity or of
      a quantity no reply can hold. */
  lemma UnpredictedIff(req: seq<byte>)
    ensures Expected(req) == UNKNOWN <==>
            || |req| < 2
            || req[1] !in {1, 2, 3, 4, 5, 6, 16}
            || (req[1] in {1, 2} && (|req| < 8 || !(1 <= Be16(req[4], req[5]) <= 2000)))
            || (req[1] in {3, 4} && (|req| < 6 || !(1 <= Be16(req[4], req[5]) <= 125)))
  {}

  /** Which octets are cut out where a length is predicted: those at the last place that carries the
      slave and the function, plain or with its high bit set, or else the first; of a buffer that is
      twice the same, in its first half. */
  lemma PredictedPosition(req: seq<byte>, buf: seq<byte>)
    requires Expected(req) != UNKNOWN && |buf| >= Expected(req)
    ensures var e := Expected(req);
            var len := if |buf| == 2 * e && buf[..e] == buf[e..] then e else |buf|;
            var r := Align(req, buf);
            && r.Slice? && r.count == e && r.at + e <= len
            && (forall i :: r.at < i <= len - e ==> !(buf[i] == req[0] && buf[i + 1] in {req[1], req[1] + 128}))
            && (r.at > 0 ==> buf[r.at] == req[0] && buf[r.at + 1] in {req[1], req[1] + 128})
  {
    var e := Expected(req);
    var len := if Doubled(buf, e) then e else |buf|;
    var at := LastReply(req, buf, len - e + 1);
    forall i | at < i <= len - e ensures !(buf[i] == req[0] && buf[i + 1] in {req[1], req[1] + 128}) {
      if i >= 0 { assert !ReplyAt(req, buf, i); }
    }
  }

  /** And where none is predicted: five octets at the last place that carries the slave and any
      exception, or else everything. */
  lemma UnpredictedPosition(req: seq<byte>, buf: seq<byte>)
    requires |req| >= 1 && Expected(req) == UNKNOWN && |buf| >= 2
    ensures var r := Align(req, buf);
            && r.Slice? && r.at + r.count <= |buf|
            && (forall i :: 0 <= i <= |buf| - 5 && buf[i] == req[0] && buf[i + 1] >= 128 ==> i <= r.at && r.count == 5)
            && (r.at > 0 || r.count < |buf| ==> r.count == 5 && buf[r.at] == req[0] && buf[r.at + 1] >= 128)
  {
    if |buf| >= 5 {
      var at := LastException(req, buf, |buf| - 4);
      forall i | 0 <= i <= |buf| - 5 && buf[i] == req[0] && buf[i + 1] >= 128 ensures at >= 0 && i <= at {
        assert ExceptionAt(req, buf, i);
      }
    }
  }

  // The replies of the application protocol: to a read, the byte count and so many octets of
  // data; to a write, four octets that echo the request.
  function ReadReply(slave: byte, fc: byte, data: seq<byte>, crc: seq<byte>): seq<byte>
    requires |data| < 256
  {
    [slave, fc, |data|] + data + crc
  }

  /** The prediction is the length of the reply a slave sends: for a read of bits the fewest
      octets that hold them, for a read of registers two octets each. */
  lemma PredictionIsReplyLength(req: seq<byte>, data: seq<byte>, crc: seq<byte>)
    requires |req| >= 8 && 1 <= req[1] <= 4 && |crc| == 2 && |data| < 256
    requires var qty := Be16(req[4], req[5]);
             if req[1] <= 2 then 1 <= qty <= 2000 && 8 * |data| - 8 < qty <= 8 * |data|
             else 1 <= qty <= 125 && |data| == 2 * qty
    ensures Expected(req) == |ReadReply(req[0], req[1], data, crc)|
    ensures ReplyAt(req, ReadReply(req[0], req[1], data, crc), 0)
  {
    var qty := Be16(req[4], req[5]);
    if req[1] <= 2 {
      assert (qty + 7) / 8 == |data|;
    }
  }

  // Address and value or quantity of the request.
  function WriteReply(slave: byte, fc: byte, echo: seq<byte>, crc: seq<byte>): seq<byte> {
    [slave, fc] + echo + crc
  }

  /** The same for the writes: single coil, single register and multiple registers. */
  lemma PredictionIsWriteReplyLength(req: seq<byte>, echo: seq<byte>, crc: seq<byte>)
    requires |req| >= 2 && req[1] in {5, 6, 16} && |echo| == 4 && |crc| == 2
    ensures Expected(req) == 8 == |WriteReply(req[0], req[1], echo, crc)|
    ensures ReplyAt(req, WriteReply(req[0], req[1], echo, crc), 0)
  {}
}
