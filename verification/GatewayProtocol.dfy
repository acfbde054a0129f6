/** What the gateway does with each frame it receives, as a function of the frame and of an
    environment that says how the UART, the socket and the uptime counter will behave. */
module GatewayProtocol {
  import opened Bytes
  import opened Framing
  import opened GwError
  import opened WallClock
  import Options
  import UartConfig
  import ResponseAlign

  const ACK: byte := 0x81
  const MODBUS_RESP: byte := 0x82
  const ALARM: byte := 0x8E
  const BODY_CAP: nat := 256
  const TX_CAP: nat := 5 + (TIME_LEN + BODY_CAP) + 1

  // The k-th Modbus transaction, UART reconfiguration, uptime reading and zsock_send call, and the
  // library's timegm.
  datatype Env = Env(
    uart: nat -> ResponseAlign.Reply,
    configure: nat -> (nat -> UartConfig.Attempt),
    uptime: nat -> nat,
    send: nat -> int,
    timegm: TimeLib)

  // The UART layer never returns more than the buffer it was given, and timegm knows the months.
  ghost predicate ValidEnv(env: Env) {
    (forall k :: |env.uart(k).resp| <= BODY_CAP) && Conforms(env.timegm)
  }

  // transactions, configures, clockReads and sends count the calls made so far; submitted
  // holds the frames handed to gw_send_all and wire the octets the socket accepted.
  datatype Dev = Dev(
    err: byte,
    gated: Gated,
    line: Options.Option<UartConfig.Line>,
    transactions: nat, configures: nat, clockReads: nat, sends: nat,
    submitted: seq<seq<byte>>, wire: seq<byte>)

  // gw_send_all from position sent on: calls made, octets accepted.
  function SendFrom(env: Env, k: nat, sent: nat, n: nat): (r: (nat, nat))
    requires sent <= n
    ensures r.0 >= k && sent <= r.1 <= n
    decreases n - sent
  {
    if sent == n then (k, n)
    else if env.send(k) <= 0 then (k + 1, sent)
    else if env.send(k) >= n - sent then (k + 1, n)
    else SendFrom(env, k + 1, sent + env.send(k), n)
  }

  function Submit(env: Env, d: Dev, frame: seq<byte>): Dev {
    var (k, n) := SendFrom(env, d.sends, 0, |frame|);
    d.(sends := k, submitted := d.submitted + [frame], wire := d.wire + frame[..n])
  }

  // A short frame goes out unless even one octet of body is over the limit.
  function SubmitCompact(env: Env, maxBody: nat, d: Dev, msgType: byte, seqNo: byte, code: byte): Dev {
    if maxBody < 1 then d else Submit(env, d, Print(Compact, Frame(msgType, seqNo, [code])))
  }

  // gw_report_error
  function Report(env: Env, maxBody: nat, d: Dev, seqNo: byte, code: byte): Dev {
    var d' := d.(err := Latched(d.err, code));
    if code == NONE then d' else SubmitCompact(env, maxBody, d', ALARM, seqNo, code)
  }

  // gw_apply_sync_and_rs232: new state and whether Ret is 0.
  function Configure(env: Env, d: Dev, body: seq<byte>): (Dev, byte) {
    if |body| != SYNC_LEN then (d, INIT_CFG)
    else if SyncBodyCheck(body) != NONE then (d, SyncBodyCheck(body))
    else
      var gated := Notify(env.timegm, d.gated, body[..TIME_LEN], env.uptime(d.clockReads));
      var d1 := d.(gated := gated, clockReads := d.clockReads + 1);
      var cfg := body[TIME_LEN..];
      var ok := UartConfig.Reconfigure(env.configure(d.configures), cfg).0;
      var d2 := d1.(configures := d.configures + 1, line := if ok then UartConfig.DecodeLine(cfg) else d.line);
      (d2, if ok then NONE else INIT_CFG)
  }

  function ApplySync(env: Env, maxBody: nat, d: Dev, body: seq<byte>, seqNo: byte): Dev {
    var (d1, code) := Configure(env, d, body);
    var d2 := if code == NONE then d1.(err := NONE) else Report(env, maxBody, d1, seqNo, code);
    SubmitCompact(env, maxBody, d2, ACK, seqNo, if code == NONE then 0 else 1)
  }

  predicate Answered(r: ResponseAlign.Reply) {
    r.ret == 0 && r.resp != []
  }

  // The retry loop: how many transactions, and the first answer if there was one.
  function Retry(env: Env, k: nat, left: nat): (nat, seq<byte>)
    decreases left
  {
    if left == 0 then (k, [])
    else if Answered(env.uart(k)) then (k + 1, env.uart(k).resp)
    else Retry(env, k + 1, left - 1)
  }

  function Response82(seqNo: byte, time: seq<byte>, resp: seq<byte>): seq<byte> {
    Print(Session, Frame(MODBUS_RESP, seqNo, time + resp))
  }

  function HandleRequest(env: Env, maxBody: nat, d: Dev, seqNo: byte): Dev {
    var (k, resp) := Retry(env, d.transactions, RETRIES);
    var d1 := d.(transactions := k);
    if resp == [] then Report(env, maxBody, d1, seqNo, RS232_NO_RESPONSE)
    else
      var d2 := d1.(err := if d.err == RS232_NO_RESPONSE then NONE else d.err);
      if |resp| > BODY_CAP then d2
      else
        var time := Encode9(d.gated.clock, env.uptime(d.clockReads));
        Submit(env, d2.(clockReads := d.clockReads + 1), Response82(seqNo, time, resp))
  }

  function Handle(env: Env, maxBody: nat, k: Kind, d: Dev, f: Frame): Dev {
    if f.msgType == SYNC then ApplySync(env, maxBody, d, f.body, f.seqNo)
    else if k == Compact || f.msgType != MODBUS_REQ || f.body == [] then d
    else HandleRequest(env, maxBody, d, f.seqNo)
  }

  function Run(env: Env, maxBody: nat, k: Kind, d: Dev, frames: seq<Frame>): Dev
    decreases |frames|
  {
    if frames == [] then d else Run(env, maxBody, k, Handle(env, maxBody, k, d, frames[0]), frames[1..])
  }

  lemma {:induction false} RunAppend(env: Env, maxBody: nat, k: Kind, d: Dev, a: seq<Frame>, b: seq<Frame>)
    ensures Run(env, maxBody, k, d, a + b) == Run(env, maxBody, k, Run(env, maxBody, k, d, a), b)
    decreases |a|
  {
    if a == [] {
      assert a + b == b;
    } else {
      assert (a + b)[0] == a[0] && (a + b)[1..] == a[1..] + b;
      RunAppend(env, maxBody, k, Handle(env, maxBody, k, d, a[0]), a[1..], b);
    }
  }

  // --- One request, one reply ---

  // The frames one received frame makes the gateway submit.
  function Replies(env: Env, maxBody: nat, k: Kind, d: Dev, f: Frame): (r: seq<seq<byte>>)
    requires d.submitted <= Handle(env, maxBody, k, d, f).submitted
  {
    Handle(env, maxBody, k, d, f).submitted[|d.submitted|..]
  }

  function ShortFrame(msgType: byte, seqNo: byte, code: byte): seq<byte> {
    [STX, msgType, seqNo, code, ETX]
  }

  lemma SubmitCompactIs(env: Env, maxBody: nat, d: Dev, msgType: byte, seqNo: byte, code: byte)
    ensures SubmitCompact(env, maxBody, d, msgType, seqNo, code).submitted ==
            d.submitted + if maxBody < 1 then [] else [ShortFrame(msgType, seqNo, code)]
  {
    assert Print(Compact, Frame(msgType, seqNo, [code])) == ShortFrame(msgType, seqNo, code);
  }

  /** What is submitted for each kind of frame, and how often the UART is used for it. */
  ghost predicate ReplyRule(env: Env, k: Kind, d: Dev, f: Frame, replies: seq<seq<byte>>, used: nat) {
    if f.msgType == 0x01 then
      used == 0 &&
      (if Configure(env, d, f.body).1 == 0 then replies == [[0x55, 0x81, f.seqNo, 0, 0x03]]
       else replies == [[0x55, 0x8E, f.seqNo, 1, 0x03], [0x55, 0x81, f.seqNo, 1, 0x03]])
    else if k == Session && f.msgType == 0x02 && f.body != [] then
      && 1 <= used <= 5
      && (forall j :: d.transactions <= j < d.transactions + used - 1 ==> !Answered(env.uart(j)))
      && (if Answered(env.uart(d.transactions + used - 1)) then
            replies == [Response82(f.seqNo, Encode9(d.gated.clock, env.uptime(d.clockReads)),
                                   env.uart(d.transactions + used - 1).resp)]
          else
            used == 5 && replies == [[0x55, 0x8E, f.seqNo, 2, 0x03]])
    else
      used == 0 && replies == []
  }

  lemma {:induction false} RetryMeaning(env: Env, k: nat, left: nat)
    requires left > 0
    ensures var (k', resp) := Retry(env, k, left);
            && k < k' <= k + left
            && (forall j :: k <= j < k' - 1 ==> !Answered(env.uart(j)))
            && (if Answered(env.uart(k' - 1)) then resp == env.uart(k' - 1).resp else resp == [] && k' == k + left)
    decreases left
  {
    if !Answered(env.uart(k)) && left > 1 {
      RetryMeaning(env, k + 1, left - 1);
    }
  }

  lemma ConfigureCodes(env: Env, d: Dev, body: seq<byte>)
    ensures Configure(env, d, body).1 in {NONE, INIT_CFG}
    ensures Configure(env, d, body).0.submitted == d.submitted
    ensures Configure(env, d, body).0.transactions == d.transactions
  {}

  lemma HandleObeysRule(env: Env, maxBody: nat, k: Kind, d: Dev, f: Frame)
    requires ValidEnv(env) && maxBody >= 1
    ensures d.submitted <= Handle(env, maxBody, k, d, f).submitted
    ensures d.transactions <= Handle(env, maxBody, k, d, f).transactions
    ensures ReplyRule(env, k, d, f, Replies(env, maxBody, k, d, f),
                      Handle(env, maxBody, k, d, f).transactions - d.transactions)
  {
    hide ApplySync, HandleRequest, Configure, Encode9, Response82, Answered;
    if f.msgType == SYNC {
      SyncReplies(env, maxBody, d, f.body, f.seqNo);
    } else if k == Session && f.msgType == MODBUS_REQ && f.body != [] {
      RequestReplies(env, maxBody, d, f.seqNo);
    }
  }

  lemma SyncReplies(env: Env, maxBody: nat, d: Dev, body: seq<byte>, seqNo: byte)
    requires maxBody >= 1
    ensures ApplySync(env, maxBody, d, body, seqNo).transactions == d.transactions
    ensures ApplySync(env, maxBody, d, body, seqNo).submitted == d.submitted +
            if Configure(env, d, body).1 == NONE then [ShortFrame(ACK, seqNo, 0)]
            else [ShortFrame(ALARM, seqNo, INIT_CFG), ShortFrame(ACK, seqNo, 1)]
  {
    hide Configure, ShortFrame, SendFrom, Print;
    ConfigureCodes(env, d, body);
    var (d1, code) := Configure(env, d, body);
    var d2 := if code == NONE then d1.(err := NONE) else Report(env, maxBody, d1, seqNo, code);
    SubmitCompactIs(env, maxBody, d1.(err := Latched(d1.err, code)), ALARM, seqNo, code);
    SubmitCompactIs(env, maxBody, d2, ACK, seqNo, if code == NONE then 0 else 1);
  }

  lemma RequestReplies(env: Env, maxBody: nat, d: Dev, seqNo: byte)
    requires ValidEnv(env) && maxBody >= 1
    ensures var d' := HandleRequest(env, maxBody, d, seqNo);
            var used := d'.transactions - d.transactions;
            && 1 <= used <= RETRIES
            && (forall j :: d.transactions <= j < d.transactions + used - 1 ==> !Answered(env.uart(j)))
            && (if Answered(env.uart(d.transactions + used - 1)) then
                  d'.submitted == d.submitted + [Response82(seqNo, Encode9(d.gated.clock, env.uptime(d.clockReads)),
                                                            env.uart(d.transactions + used - 1).resp)]
                else
                  used == RETRIES && d'.submitted == d.submitted + [ShortFrame(ALARM, seqNo, RS232_NO_RESPONSE)])
  {
    hide Print, ShortFrame, SendFrom, Encode9, Response82, Retry, Conforms;
    RetryMeaning(env, d.transactions, RETRIES);
    var (t, resp) := Retry(env, d.transactions, RETRIES);
    var d1 := d.(transactions := t);
    SubmitCompactIs(env, maxBody, d1.(err := Latched(d1.err, RS232_NO_RESPONSE)), ALARM, seqNo, RS232_NO_RESPONSE);
    assert |env.uart(t - 1).resp| <= BODY_CAP;
  }

  function Requests(frames: seq<Frame>): nat {
    if frames == [] then 0
    else (if frames[0].msgType == MODBUS_REQ && frames[0].body != [] then 1 else 0) + Requests(frames[1..])
  }

  /** Over any run of a session everything submitted is one group of replies per frame, in order:
      each non-empty 0x02 request gets exactly one frame, 0x82 with the first answer among at
      most five transactions or else 0x8E(0x02); each SYNC gets exactly one 0x81, preceded by
      0x8E(0x01) exactly when its Ret is 1; nothing else is answered. */
  lemma {:induction false} OneReplyPerRequest(env: Env, maxBody: nat, k: Kind, d: Dev, frames: seq<Frame>)
    returns (groups: seq<seq<seq<byte>>>)
    requires ValidEnv(env) && maxBody >= 1
    ensures |groups| == |frames|
    ensures Run(env, maxBody, k, d, frames).submitted == d.submitted + Joined(groups)
    ensures forall i :: 0 <= i < |frames| ==>
              var before := Run(env, maxBody, k, d, frames[..i]);
              var after := Run(env, maxBody, k, d, frames[..i + 1]);
              && before.transactions <= after.transactions
              && ReplyRule(env, k, before, frames[i], groups[i], after.transactions - before.transactions)
    ensures k == Session ==>
              Run(env, maxBody, k, d, frames).transactions <= d.transactions + 5 * Requests(frames)
    decreases |frames|
  {
    hide Handle, ReplyRule;
    if frames == [] {
      groups := [];
    } else {
      var d1 := Handle(env, maxBody, k, d, frames[0]);
      HandleObeysRule(env, maxBody, k, d, frames[0]);
      var rest := OneReplyPerRequest(env, maxBody, k, d1, frames[1..]);
      groups := [Replies(env, maxBody, k, d, frames[0])] + rest;
      RuleBoundsUse(env, k, d, frames[0], groups[0], d1.transactions - d.transactions);
      assert groups[1..] == rest;
      forall i | 0 <= i < |frames|
        ensures var before := Run(env, maxBody, k, d, frames[..i]);
                var after := Run(env, maxBody, k, d, frames[..i + 1]);
                && before.transactions <= after.transactions
                && ReplyRule(env, k, before, frames[i], groups[i], after.transactions - before.transactions)
      {
        RunPrefix(env, maxBody, k, d, frames, i);
      }
    }
  }

  lemma RuleBoundsUse(env: Env, k: Kind, d: Dev, f: Frame, replies: seq<seq<byte>>, used: nat)
    requires ReplyRule(env, k, d, f, replies, used)
    ensures used <= if f.msgType == MODBUS_REQ && f.body != [] then RETRIES else 0
  {}

  lemma RunPrefix(env: Env, maxBody: nat, k: Kind, d: Dev, frames: seq<Frame>, i: nat)
    requires i < |frames|
    ensures Run(env, maxBody, k, d, frames[..i + 1]) ==
            Run(env, maxBody, k, Handle(env, maxBody, k, d, frames[0]), frames[1..][..i])
    ensures i == 0 ==> Run(env, maxBody, k, d, frames[..i]) == d
    ensures i > 0 ==> Run(env, maxBody, k, d, frames[..i]) ==
                      Run(env, maxBody, k, Handle(env, maxBody, k, d, frames[0]), frames[1..][..i - 1])
  {
    hide Handle;
    assert frames[..i + 1][1..] == frames[1..][..i];
    if i > 0 { assert frames[..i][1..] == frames[1..][..i - 1]; }
  }
}
