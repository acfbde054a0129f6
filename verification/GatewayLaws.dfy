/** Laws of the gateway's replies beyond their number: what SYNC does, what the error latch and
    the UDP gate show, and what the server can read back. */
module GatewayLaws {
  import opened Bytes
  import opened Framing
  import opened FramingLaws
  import opened GwError
  import opened WallClock
  import opened GatewayProtocol
  import UartConfig
  import ResponseAlign
  import RtuTransaction

  /** Ret is 0 exactly when the body is legal and the UART grants one of three attempts before any
      abort; then the line setting is that of the body. A legal body sets the clock to its date and
      time and opens the gate whatever becomes of the UART; any other changes nothing. */
  lemma SyncAcceptedIff(env: Env, d: Dev, body: seq<byte>)
    requires Conforms(env.timegm)
    ensures Configure(env, d, body).1 == 0 <==>
            && UartConfig.LegalBody(body)
            && exists j :: 1 <= j <= 3 && env.configure(d.configures)(j).configured
                           && forall i :: 1 <= i <= j ==> !env.configure(d.configures)(i).aborted
    ensures Configure(env, d, body).1 in {0, 1}
    ensures !UartConfig.LegalBody(body) ==> Configure(env, d, body).0 == d
    ensures UartConfig.LegalBody(body) ==>
              var (d', ret) := Configure(env, d, body);
              var days := Calendar.Days(Be16(body[0], body[1]), body[2], body[3]);
              var seconds := 86400 * days + 3600 * body[4] as int + 60 * body[5] as int + body[6];
              && seconds >= 0
              && d'.gated == Gated(Clock(true, seconds, Be16(body[7], body[8]), env.uptime(d.clockReads)), true)
              && (ret == 0 ==> d'.line.Some? && UartConfig.Supported(d'.line.value)
                               && UartConfig.EncodeLine(d'.line.value) == body[9..])
              && (ret != 0 ==> d'.line == d.line)
              && d' == d.(gated := d'.gated, line := d'.line,
                          clockReads := d.clockReads + 1, configures := d.configures + 1)
  {
    hide Calendar.Days, Calendar.Timegm, Notify, Conforms, SyncBodyCheck, UartConfig.LegalBody, UartConfig.Reconfigure;
    UartConfig.SyncBodyCheckIff(body);
    if SyncBodyCheck(body) == NONE {
      var cfg := body[TIME_LEN..];
      UartConfig.ReconfigureIff(env.configure(d.configures), cfg);
      CheckedBody(body);
      LegalOctets(body);
      NotifyOfChecked(env.timegm, d.gated, body, env.uptime(d.clockReads));
      SecondsOf(body);
    }
  }

  lemma LegalOctets(body: seq<byte>)
    requires UartConfig.LegalBody(body)
    ensures |body| == 14 && UartConfig.DecodeLine(body[9..]).Some?
    ensures UartConfig.Supported(UartConfig.DecodeLine(body[9..]).value)
    ensures UartConfig.EncodeLine(UartConfig.DecodeLine(body[9..]).value) == body[9..]
  {
    var l :| UartConfig.Supported(l) && UartConfig.EncodeLine(l) == body[9..];
    UartConfig.LineRoundTrip(l, body[9..]);
  }

  lemma SecondsOf(body: seq<byte>)
    requires |body| >= TIME_LEN && 1 <= body[2] <= 12
    ensures Calendar.Timegm(TimeOf(body)) == 86400 * Calendar.Days(Be16(body[0], body[1]), body[2], body[3])
                                             + 3600 * body[4] as int + 60 * body[5] as int + body[6]
  {}

  // What the gate and the clock are after a body that passed the check.
  lemma NotifyOfChecked(lib: TimeLib, g: Gated, body: seq<byte>, up: nat)
    requires Conforms(lib) && SyncBodyCheck(body) == NONE
    ensures |body| == SYNC_LEN
    ensures Notify(lib, g, body[..TIME_LEN], up) ==
            Gated(Clock(true, Calendar.Timegm(TimeOf(body)), MsecOf(body), up), true)
  {
    hide Calendar.Timegm, SyncBodyCheck;
    CheckedBody(body);
    CheckOfPrefix(body);
    assert lib(TimeOf(body)) == Calendar.Timegm(TimeOf(body));
  }

  lemma CheckOfPrefix(body: seq<byte>)
    requires |body| == SYNC_LEN
    ensures TimeOf(body[..TIME_LEN]) == TimeOf(body) && MsecOf(body[..TIME_LEN]) == MsecOf(body)
  {}

  /** The latch after a frame: a SYNC leaves 0 or 1 like its Ret; a request leaves 2 exactly when
      none of five transactions was answered, and otherwise clears a 2 and keeps any other code;
      nothing else touches it. */
  lemma LatchAfterFrame(env: Env, maxBody: nat, k: Kind, d: Dev, f: Frame)
    requires ValidEnv(env)
    ensures var d' := Handle(env, maxBody, k, d, f);
            if f.msgType == 0x01 then
              d'.err == Configure(env, d, f.body).1
            else if k == Session && f.msgType == 0x02 && f.body != [] then
              if forall j :: d.transactions <= j < d.transactions + 5 ==> !Answered(env.uart(j)) then d'.err == 2
              else d'.err == if d.err == 2 then 0 else d.err
            else
              d'.err == d.err
  {
    hide Configure, Print, Encode9;
    if f.msgType == SYNC {
      ConfigureCodes(env, d, f.body);
    } else if k == Session && f.msgType == MODBUS_REQ && f.body != [] {
      RetryMeaning(env, d.transactions, RETRIES);
      var (t, resp) := Retry(env, d.transactions, RETRIES);
      assert |env.uart(t - 1).resp| <= BODY_CAP;
    }
  }

  /** Only a SYNC touches clock, gate and line, and only a request the UART's transactions; any
      other frame changes nothing at all. */
  lemma FrameTouches(env: Env, maxBody: nat, k: Kind, d: Dev, f: Frame)
    ensures var d' := Handle(env, maxBody, k, d, f);
            && (f.msgType != 0x01 ==> d'.gated == d.gated && d'.line == d.line && d'.configures == d.configures)
            && (f.msgType == 0x01 ==>
                  && d'.gated == Configure(env, d, f.body).0.gated && d'.line == Configure(env, d, f.body).0.line
                  && d'.transactions == d.transactions)
            && (f.msgType !in {0x01, 0x02} || (f.msgType == 0x02 && (k == Compact || f.body == [])) ==> d' == d)
  {
    hide Configure, Print, Encode9, SendFrom, Retry;
    ConfigureCodes(env, d, f.body);
  }

  /** Over any run of either phase the UDP gate, once open, stays open, and an open gate means a
      synced clock. */
  lemma {:induction false} GateInvariant(env: Env, maxBody: nat, k: Kind, d: Dev, frames: seq<Frame>)
    requires Conforms(env.timegm) && (d.gated.open ==> d.gated.clock.synced)
    ensures var d' := Run(env, maxBody, k, d, frames);
            (d.gated.open ==> d'.gated.open) && (d'.gated.open ==> d'.gated.clock.synced)
    decreases |frames|
  {
    hide Handle;
    if frames != [] {
      GateStep(env, maxBody, k, d, frames[0]);
      GateInvariant(env, maxBody, k, Handle(env, maxBody, k, d, frames[0]), frames[1..]);
    }
  }

  lemma GateStep(env: Env, maxBody: nat, k: Kind, d: Dev, f: Frame)
    requires Conforms(env.timegm) && (d.gated.open ==> d.gated.clock.synced)
    ensures var d' := Handle(env, maxBody, k, d, f);
            (d.gated.open ==> d'.gated.open) && (d'.gated.open ==> d'.gated.clock.synced)
  {
    hide Print, Encode9, Calendar.Timegm, Conforms, Notify, SyncBodyCheck, Retry, UartConfig.Reconfigure;
    if f.msgType == SYNC && |f.body| == SYNC_LEN && SyncBodyCheck(f.body) == NONE {
      NotifyOfChecked(env.timegm, d.gated, f.body, env.uptime(d.clockReads));
    }
  }

  /** Acknowledgements and alarms carry one octet of body, so a build whose body limit is 0 never
      answers a SYNC, and every other build always does. */
  lemma AcknowledgedIff(env: Env, maxBody: nat, k: Kind, d: Dev, f: Frame)
    requires ValidEnv(env) && f.msgType == SYNC
    ensures Handle(env, maxBody, k, d, f).submitted == d.submitted <==> maxBody == 0
  {
    hide Configure, Print;
    ConfigureCodes(env, d, f.body);
    if maxBody >= 1 {
      HandleObeysRule(env, maxBody, k, d, f);
      assert |Replies(env, maxBody, k, d, f)| >= 1;
    }
  }

  /** The 0x82 frame fits the transmit buffer exactly when the response fits its own, and any
      session parser whose limit admits it reads back the very Seq, time and response. */
  lemma ResponseReadsBack(seqNo: byte, time: seq<byte>, resp: seq<byte>, limit: nat)
    requires |time| == TIME_LEN && TIME_LEN + |resp| <= limit < 0x1_0000
    ensures |Response82(seqNo, time, resp)| <= TX_CAP <==> |resp| <= 256
    ensures var n := 9 + |resp|;
            Response82(seqNo, time, resp) == [0x55, n / 256, n % 256, 0x82, seqNo] + (time + resp) + [0x03]
    ensures Parsed(Session, limit, Response82(seqNo, time, resp)) == [Frame(MODBUS_RESP, seqNo, time + resp)]
    ensures Rest(Session, limit, Response82(seqNo, time, resp)) == []
  {
    var f := Frame(MODBUS_RESP, seqNo, time + resp);
    PrintLength(Session, f);
    Layout(f);
    FrontFrame(Session, limit, f, []);
    SmallDrain(Session, limit, []);
    assert Print(Session, f) + [] == Print(Session, f);
  }

  /** Whatever the line delivers and whenever, the RTU path returns at most what the response buffer
      holds, and an answer for the retry loop exactly when no abort ended the gathering and it got
      two octets and, where the length is predicted, that many. */
  lemma UartReplyFits(req: seq<byte>, unread: seq<byte>, turns: seq<RtuTransaction.Turn>)
    requires |req| >= 1
    ensures |RtuTransaction.Outcome(req, BODY_CAP, unread, turns).resp| <= BODY_CAP
    ensures var g := RtuTransaction.Await(req, BODY_CAP, unread, turns);
            var e := ResponseAlign.Expected(req);
            Answered(RtuTransaction.Outcome(req, BODY_CAP, unread, turns)) <==>
            !g.aborted && |g.rx| >= 2 && (e == ResponseAlign.UNKNOWN || |g.rx| >= e)
  {
    hide ResponseAlign.Expected, ResponseAlign.Align, RtuTransaction.Await;
    ResponseAlign.SucceedsIff(req, RtuTransaction.Await(req, BODY_CAP, unread, turns).rx);
  }

  /** gw_send_all delivers the whole frame exactly when no call it makes is refused, and always a
      prefix of it. */
  lemma {:induction false} SendsAllIff(env: Env, k: nat, sent: nat, n: nat)
    requires sent <= n
    ensures var (k', accepted) := SendFrom(env, k, sent, n);
            accepted == n <==> forall j :: k <= j < k' ==> env.send(j) > 0
    decreases n - sent
  {
    if sent < n && 0 < env.send(k) < n - sent {
      SendsAllIff(env, k + 1, sent + env.send(k), n);
    }
  }

  // What zsock_send took in the calls k .. k' - 1.
  function Took(env: Env, k: nat, k': nat): int
    decreases k' - k
  {
    if k >= k' then 0 else env.send(k) + Took(env, k + 1, k')
  }

  /** Of a frame that is not sent whole exactly what the calls before the refused one took is
      accepted. */
  lemma {:induction false} PartlySent(env: Env, k: nat, sent: nat, n: nat)
    requires sent <= n
    ensures var (k', accepted) := SendFrom(env, k, sent, n);
            accepted < n ==> k < k' && env.send(k' - 1) <= 0 && accepted == sent + Took(env, k, k' - 1)
    decreases n - sent
  {
    if sent < n && 0 < env.send(k) < n - sent {
      PartlySent(env, k + 1, sent + env.send(k), n);
    }
  }

  /** The reply stream does not depend on how TCP cut the requests: two segmentations of the
      same octets make the gateway do the same things. */
  lemma RepliesIgnoreSegmentation(env: Env, maxBody: nat, k: Kind, d: Dev, kept: seq<byte>,
                                  chunks: seq<seq<byte>>, chunks': seq<seq<byte>>)
    requires Parsed(k, maxBody, kept) == [] && Rest(k, maxBody, kept) == kept
    requires Joined(chunks) == Joined(chunks')
    ensures Run(env, maxBody, k, d, FeedAll(k, maxBody, kept, chunks).0) ==
            Run(env, maxBody, k, d, FeedAll(k, maxBody, kept, chunks').0)
  {
    AnyChunking(k, maxBody, kept, chunks);
    AnyChunking(k, maxBody, kept, chunks');
  }
}
