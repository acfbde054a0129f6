/** What the server reads off the socket: the replies of a run, in the two framings mixed, as long
    as the socket takes every octet. */
module ServerView {
  import opened Bytes
  import opened Framing
  import opened FramingLaws
  import opened GwError
  import opened WallClock
  import opened GatewayProtocol
  import GatewayLaws

  // --- Octets on the wire against frames submitted ---

  predicate Granted(env: Env, k: nat, k': nat) {
    forall j :: k <= j < k' ==> env.send(j) > 0
  }

  // From d to d' some frames were submitted and at most their octets went out.
  ghost predicate Sends(env: Env, d: Dev, d': Dev) {
    && d.sends <= d'.sends && d.submitted <= d'.submitted && d.wire <= d'.wire
    && var added := Joined(d'.submitted[|d.submitted|..]);
       if Granted(env, d.sends, d'.sends) then d'.wire == d.wire + added else |d'.wire| < |d.wire| + |added|
  }

  lemma SendsNothing(env: Env, d: Dev, d': Dev)
    requires d.sends == d'.sends && d.submitted == d'.submitted && d.wire == d'.wire
    ensures Sends(env, d, d')
  {
    assert d'.submitted[|d.submitted|..] == [];
    assert d.wire + [] == d.wire;
  }

  lemma SendsTwice(env: Env, d: Dev, d1: Dev, d2: Dev)
    requires Sends(env, d, d1) && Sends(env, d1, d2)
    ensures Sends(env, d, d2)
  {
    hide Joined;
    var a, b := d1.submitted[|d.submitted|..], d2.submitted[|d1.submitted|..];
    assert d2.submitted[|d.submitted|..] == a + b;
    JoinedAppend(a, b);
    if Granted(env, d.sends, d2.sends) {
      assert d2.wire == d.wire + (Joined(a) + Joined(b));
    } else {
      assert !Granted(env, d.sends, d1.sends) || !Granted(env, d1.sends, d2.sends);
    }
  }

  lemma SubmitSends(env: Env, d: Dev, frame: seq<byte>)
    ensures Sends(env, d, Submit(env, d, frame))
  {
    hide SendFrom;
    GatewayLaws.SendsAllIff(env, d.sends, 0, |frame|);
    var d' := Submit(env, d, frame);
    assert d'.submitted[|d.submitted|..] == [frame];
    assert Joined([frame]) == frame + Joined([]);
    assert frame[..|frame|] == frame;
  }

  lemma SubmitCompactSends(env: Env, maxBody: nat, d: Dev, msgType: byte, seqNo: byte, code: byte)
    ensures Sends(env, d, SubmitCompact(env, maxBody, d, msgType, seqNo, code))
  {
    hide Sends, Submit, Print;
    if maxBody < 1 {
      SendsNothing(env, d, d);
    } else {
      SubmitSends(env, d, Print(Compact, Frame(msgType, seqNo, [code])));
    }
  }

  lemma ReportSends(env: Env, maxBody: nat, d: Dev, seqNo: byte, code: byte)
    ensures Sends(env, d, Report(env, maxBody, d, seqNo, code))
  {
    hide Sends, SubmitCompact;
    var d' := d.(err := Latched(d.err, code));
    SendsNothing(env, d, d');
    if code != NONE {
      SubmitCompactSends(env, maxBody, d', ALARM, seqNo, code);
      SendsTwice(env, d, d', SubmitCompact(env, maxBody, d', ALARM, seqNo, code));
    }
  }

  lemma HandleSends(env: Env, maxBody: nat, k: Kind, d: Dev, f: Frame)
    ensures Sends(env, d, Handle(env, maxBody, k, d, f))
  {
    hide Sends, ApplySync, HandleRequest;
    if f.msgType == SYNC {
      SyncSends(env, maxBody, d, f.body, f.seqNo);
    } else if k == Compact || f.msgType != MODBUS_REQ || f.body == [] {
      SendsNothing(env, d, d);
    } else {
      RequestSends(env, maxBody, d, f.seqNo);
    }
  }

  lemma SyncSends(env: Env, maxBody: nat, d: Dev, body: seq<byte>, seqNo: byte)
    ensures Sends(env, d, ApplySync(env, maxBody, d, body, seqNo))
  {
    hide Sends, Configure, Report, SubmitCompact;
    ConfigureSendsNothing(env, d, body);
    var (d1, code) := Configure(env, d, body);
    var d2 := if code == NONE then d1.(err := NONE) else Report(env, maxBody, d1, seqNo, code);
    if code == NONE { SendsNothing(env, d1, d2); } else { ReportSends(env, maxBody, d1, seqNo, code); }
    SendsTwice(env, d, d1, d2);
    var ret := if code == NONE then 0 else 1;
    SubmitCompactSends(env, maxBody, d2, ACK, seqNo, ret);
    SendsTwice(env, d, d2, SubmitCompact(env, maxBody, d2, ACK, seqNo, ret));
  }

  lemma ConfigureSendsNothing(env: Env, d: Dev, body: seq<byte>)
    ensures Sends(env, d, Configure(env, d, body).0)
  {
    hide Sends;
    SendsNothing(env, d, Configure(env, d, body).0);
  }

  lemma RequestSends(env: Env, maxBody: nat, d: Dev, seqNo: byte)
    ensures Sends(env, d, HandleRequest(env, maxBody, d, seqNo))
  {
    hide Sends, Submit, Report, Encode9, Response82, Retry;
    var (k, resp) := Retry(env, d.transactions, RETRIES);
    var d1 := d.(transactions := k);
    SendsNothing(env, d, d1);
    if resp == [] {
      ReportSends(env, maxBody, d1, seqNo, RS232_NO_RESPONSE);
      SendsTwice(env, d, d1, Report(env, maxBody, d1, seqNo, RS232_NO_RESPONSE));
    } else {
      var d2 := d1.(err := if d.err == RS232_NO_RESPONSE then NONE else d.err);
      SendsNothing(env, d, d2);
      if |resp| <= BODY_CAP {
        var d3 := d2.(clockReads := d.clockReads + 1);
        SendsNothing(env, d, d3);
        var frame := Response82(seqNo, Encode9(d.gated.clock, env.uptime(d.clockReads)), resp);
        SubmitSends(env, d3, frame);
        SendsTwice(env, d, d3, Submit(env, d3, frame));
      }
    }
  }

  /** Over any run, what went out on the socket is the submitted frames one after the other,
      complete, exactly when no send call of the run was refused; otherwise it is shorter. */
  lemma {:induction false} WireIsSubmittedIff(env: Env, maxBody: nat, k: Kind, d: Dev, frames: seq<Frame>)
    ensures var d' := Run(env, maxBody, k, d, frames);
            && d.sends <= d'.sends && d.submitted <= d'.submitted
            && (d'.wire == d.wire + Joined(d'.submitted[|d.submitted|..]) <==> Granted(env, d.sends, d'.sends))
    ensures Sends(env, d, Run(env, maxBody, k, d, frames))
    decreases |frames|
  {
    hide Handle, Joined;
    if frames == [] {
      SendsNothing(env, d, d);
    } else {
      var d1 := Handle(env, maxBody, k, d, frames[0]);
      HandleSends(env, maxBody, k, d, frames[0]);
      WireIsSubmittedIff(env, maxBody, k, d1, frames[1..]);
      SendsTwice(env, d, d1, Run(env, maxBody, k, d1, frames[1..]));
    }
  }

  // --- Reading the mixed stream ---

  datatype Message =
    | Ack(seqNo: byte, ret: byte)
    | Alarm(seqNo: byte, code: byte)
    | Response(seqNo: byte, time: seq<byte>, resp: seq<byte>)

  predicate Sound(m: Message) {
    m.Response? ==> |m.time| == TIME_LEN && |m.resp| <= BODY_CAP
  }

  function Written(m: Message): seq<byte> {
    match m
    case Ack(seqNo, ret) => ShortFrame(ACK, seqNo, ret)
    case Alarm(seqNo, code) => ShortFrame(ALARM, seqNo, code)
    case Response(seqNo, time, resp) => Response82(seqNo, time, resp)
  }

  function AllWritten(ms: seq<Message>): (frames: seq<seq<byte>>)
    ensures |frames| == |ms|
  {
    if ms == [] then [] else [Written(ms[0])] + AllWritten(ms[1..])
  }

  // The second octet tells a short frame from the length of a session frame.
  function Read(s: seq<byte>): seq<Message>
    decreases |s|
  {
    if |s| < 5 then []
    else if s[1] == ACK then [Ack(s[2], s[3])] + Read(s[5..])
    else if s[1] == ALARM then [Alarm(s[2], s[3])] + Read(s[5..])
    else
      var n := Be16(s[1], s[2]);
      if n < TIME_LEN || |s| < 6 + n then []
      else [Response(s[4], s[5..5 + TIME_LEN], s[5 + TIME_LEN..5 + n])] + Read(s[6 + n..])
  }

  lemma ReadOne(m: Message, more: seq<byte>)
    requires Sound(m)
    ensures Read(Written(m) + more) == [m] + Read(more)
  {
    hide Response82;
    match m
    case Response(seqNo, time, resp) => ReadResponse(seqNo, time, resp, more);
    case _ => assert (Written(m) + more)[5..] == more;
  }

  lemma ReadResponse(seqNo: byte, time: seq<byte>, resp: seq<byte>, more: seq<byte>)
    requires |time| == TIME_LEN && |resp| <= BODY_CAP
    ensures Read(Response82(seqNo, time, resp) + more) == [Response(seqNo, time, resp)] + Read(more)
  {
    hide Print, Be16;
    var f := Frame(MODBUS_RESP, seqNo, time + resp);
    var n := |f.body|;
    var p := Print(Session, f);
    var s := p + more;
    SessionPrinted(n, f, more);
    assert Be16(s[1], s[2]) == n && s[5..5 + n] == time + resp && s[4] == seqNo;
    LengthOctet(s[1], s[2]);
    assert s[6 + n..] == more;
    assert s[5..5 + TIME_LEN] == s[5..5 + n][..TIME_LEN] == time;
    assert s[5 + TIME_LEN..5 + n] == s[5..5 + n][TIME_LEN..] == resp;
  }

  // The length of a session frame never looks like a type.
  lemma LengthOctet(hi: byte, lo: byte)
    ensures Be16(hi, lo) <= TIME_LEN + BODY_CAP ==> hi <= 1
  {}

  /** The mixed stream decodes uniquely: whatever messages were written, exactly those are read. */
  lemma {:induction false} ReadInvertsWritten(ms: seq<Message>)
    requires forall m :: m in ms ==> Sound(m)
    ensures Read(Joined(AllWritten(ms))) == ms
    decreases |ms|
  {
    hide Written, Read;
    if ms == [] {
      ReadNothing();
    } else {
      assert ms[0] in ms;
      ReadOne(ms[0], Joined(AllWritten(ms[1..])));
      ReadInvertsWritten(ms[1..]);
      assert AllWritten(ms)[1..] == AllWritten(ms[1..]);
      assert [ms[0]] + ms[1..] == ms;
    }
  }

  lemma ReadNothing()
    ensures Read([]) == []
  {}

  lemma {:induction false} AllWrittenAppend(a: seq<Message>, b: seq<Message>)
    ensures AllWritten(a + b) == AllWritten(a) + AllWritten(b)
  {
    hide Written;
    if a == [] {
      assert a + b == b;
    } else {
      assert (a + b)[0] == a[0] && (a + b)[1..] == a[1..] + b;
      AllWrittenAppend(a[1..], b);
    }
  }

  lemma OneWritten(m: Message)
    ensures AllWritten([m]) == [Written(m)]
  {
    assert AllWritten([m]) == [Written(m)] + AllWritten([]);
  }

  // The messages one frame is answered with.
  lemma HandleMessages(env: Env, maxBody: nat, k: Kind, d: Dev, f: Frame) returns (ms: seq<Message>)
    requires ValidEnv(env)
    ensures forall m :: m in ms ==> Sound(m)
    ensures Handle(env, maxBody, k, d, f).submitted == d.submitted + AllWritten(ms)
  {
    hide ApplySync, HandleRequest, AllWritten;
    if f.msgType == SYNC {
      ms := SyncMessages(env, maxBody, d, f.body, f.seqNo);
    } else if k == Compact || f.msgType != MODBUS_REQ || f.body == [] {
      ms := [];
      NoneWritten();
    } else {
      ms := RequestMessages(env, maxBody, d, f.seqNo);
    }
  }

  lemma NoneWritten()
    ensures AllWritten([]) == []
  {}

  lemma SyncMessages(env: Env, maxBody: nat, d: Dev, body: seq<byte>, seqNo: byte) returns (ms: seq<Message>)
    ensures forall m :: m in ms ==> Sound(m)
    ensures ApplySync(env, maxBody, d, body, seqNo).submitted == d.submitted + AllWritten(ms)
  {
    hide Configure, ShortFrame, SendFrom, Print, AllWritten;
    ConfigureCodes(env, d, body);
    NoneWritten();
    var (d1, code) := Configure(env, d, body);
    var ret := if code == NONE then 0 else 1;
    var d2 := if code == NONE then d1.(err := NONE) else Report(env, maxBody, d1, seqNo, code);
    SubmitCompactIs(env, maxBody, d1.(err := Latched(d1.err, code)), ALARM, seqNo, code);
    SubmitCompactIs(env, maxBody, d2, ACK, seqNo, ret);
    var alarm := if code == NONE then [] else [Alarm(seqNo, code)];
    ms := if maxBody < 1 then [] else alarm + [Ack(seqNo, ret)];
    OneWritten(Alarm(seqNo, code));
    OneWritten(Ack(seqNo, ret));
    AllWrittenAppend(alarm, [Ack(seqNo, ret)]);
  }

  lemma RequestMessages(env: Env, maxBody: nat, d: Dev, seqNo: byte) returns (ms: seq<Message>)
    requires ValidEnv(env)
    ensures forall m :: m in ms ==> Sound(m)
    ensures HandleRequest(env, maxBody, d, seqNo).submitted == d.submitted + AllWritten(ms)
  {
    hide ShortFrame, SendFrom, Print, AllWritten, Encode9, Response82, Retry, Conforms;
    NoneWritten();
    RetryMeaning(env, d.transactions, RETRIES);
    var (t, resp) := Retry(env, d.transactions, RETRIES);
    if resp == [] {
      var d1 := d.(transactions := t);
      SubmitCompactIs(env, maxBody, d1.(err := Latched(d1.err, RS232_NO_RESPONSE)), ALARM, seqNo, RS232_NO_RESPONSE);
      ms := if maxBody < 1 then [] else [Alarm(seqNo, RS232_NO_RESPONSE)];
      OneWritten(Alarm(seqNo, RS232_NO_RESPONSE));
    } else {
      assert |env.uart(t - 1).resp| <= BODY_CAP;
      ms := [Response(seqNo, Encode9(d.gated.clock, env.uptime(d.clockReads)), resp)];
      OneWritten(ms[0]);
    }
  }

  /** Everything a run submits is a list of acknowledgements, alarms and responses, and while no
      send call is refused a server that reads the new octets of the socket gets that list. */
  lemma ServerReads(env: Env, maxBody: nat, k: Kind, d: Dev, frames: seq<Frame>) returns (ms: seq<Message>)
    requires ValidEnv(env)
    ensures var d' := Run(env, maxBody, k, d, frames);
            && d'.submitted == d.submitted + AllWritten(ms)
            && d.wire <= d'.wire && d.sends <= d'.sends
            && (Granted(env, d.sends, d'.sends) ==> Read(d'.wire[|d.wire|..]) == ms)
  {
    hide Run, Joined, AllWritten, Read, ValidEnv;
    ms := RunMessages(env, maxBody, k, d, frames);
    var d' := Run(env, maxBody, k, d, frames);
    WireIsSubmittedIff(env, maxBody, k, d, frames);
    ReadInvertsWritten(ms);
    assert d'.submitted[|d.submitted|..] == AllWritten(ms);
  }

  lemma {:induction false} RunMessages(env: Env, maxBody: nat, k: Kind, d: Dev, frames: seq<Frame>)
    returns (ms: seq<Message>)
    requires ValidEnv(env)
    ensures forall m :: m in ms ==> Sound(m)
    ensures Run(env, maxBody, k, d, frames).submitted == d.submitted + AllWritten(ms)
    decreases |frames|
  {
    hide Handle, AllWritten, ValidEnv;
    if frames == [] {
      ms := [];
      NoneWritten();
    } else {
      var now := HandleMessages(env, maxBody, k, d, frames[0]);
      var later := RunMessages(env, maxBody, k, Handle(env, maxBody, k, d, frames[0]), frames[1..]);
      ms := now + later;
      AllWrittenAppend(now, later);
    }
  }
}
