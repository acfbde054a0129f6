/** The gateway task as it runs: one receive buffer shifted in place, one transmit buffer filled
    in place, the drain loops and the receive loops, each proved against Framing and
    GatewayProtocol. */
module TcpGateway {
  import opened Bytes
  import opened Framing
  import opened FramingLaws
  import opened GwError
  import opened WallClock
  import opened GatewayProtocol
  import Options
  import UartConfig

  function HasSync(frames: seq<Frame>): bool {
    exists f :: f in frames && f.msgType == SYNC
  }

  class Gateway {
    const maxBody: nat
    const cap: nat
    const env: Env
    const rbuf: array<byte>
    const txFrame: array<byte>
    const latch: ErrorLatch
    const gate: SyncGate
    const port: UartConfig.Port
    var rlen: nat
    var transactions: nat
    var configures: nat
    var clockReads: nat
    var sends: nat
    var fullResets: int // how often a full receive buffer was thrown away
    ghost var submitted: seq<seq<byte>>
    ghost var wire: seq<byte>

    ghost predicate Valid()
      reads this, port, port.ring
    {
      && BuildAssertion(maxBody, cap) && ValidEnv(env) && port.Valid()
      && rbuf.Length == cap && txFrame.Length == TX_CAP && rbuf != txFrame && rlen <= cap
    }

    ghost function Dv(): Dev
      reads this, latch, gate, gate.wall, port
    {
      Dev(latch.code, gate.View(), port.line, transactions, configures, clockReads, sends, submitted, wire)
    }

    // The unparsed octets.
    ghost function Pending(): seq<byte>
      requires rlen <= rbuf.Length
      reads this, rbuf
    {
      rbuf[..rlen]
    }

    constructor (maxBody: nat, cap: nat, env: Env)
      requires BuildAssertion(maxBody, cap) && ValidEnv(env)
      ensures Valid() && this.maxBody == maxBody && this.cap == cap && this.env == env
      ensures Pending() == [] && fullResets == 0
      ensures Dv() == Dev(NONE, Gated(UNSYNCED, false), Options.None, 0, 0, 0, 0, [], [])
    {
      this.maxBody, this.cap, this.env := maxBody, cap, env;
      rbuf, txFrame := new byte[cap], new byte[TX_CAP];
      latch := new ErrorLatch();
      gate := new SyncGate();
      port := new UartConfig.Port();
      rlen, transactions, configures, clockReads, sends, fullResets := 0, 0, 0, 0, 0, 0;
      submitted, wire := [], [];
    }

    // --- Sending ---

    // gw_build_compact_tx; -EINVAL is None.
    method BuildCompactTx(msgType: byte, seqNo: byte, body: seq<byte>) returns (plen: nat)
      requires Valid()
      modifies txFrame
      ensures |body| > maxBody ==> plen == 0 && txFrame[..] == old(txFrame[..])
      ensures |body| <= maxBody ==> plen <= TX_CAP && txFrame[..plen] == Print(Compact, Frame(msgType, seqNo, body))
    {
      var need := 3 + |body| + 1;
      if txFrame.Length < need || |body| > maxBody {
        return 0;
      }
      txFrame[0], txFrame[1], txFrame[2] := STX, msgType, seqNo;
      forall i | 0 <= i < |body| { txFrame[3 + i] := body[i]; }
      txFrame[3 + |body|] := ETX;
      assert txFrame[3..3 + |body|] == body;
      return need;
    }

    // gw_send_all
    method SendAll(n: nat) returns (ok: bool)
      requires Valid() && n <= TX_CAP
      modifies this`sends, this`wire, this`submitted
      ensures Dv() == Submit(env, old(Dv()), txFrame[..n])
      ensures ok <==> SendFrom(env, old(sends), 0, n).1 == n
    {
      ghost var frame := txFrame[..n];
      submitted := submitted + [frame];
      var sent := 0;
      while sent < n
        invariant sent <= n && SendFrom(env, sends, sent, n) == SendFrom(env, old(sends), 0, n)
        invariant wire == old(wire) + frame[..sent] && submitted == old(submitted) + [frame]
      {
        var r := env.send(sends);
        sends := sends + 1;
        if r <= 0 {
          return false;
        }
        if r > n - sent {
          r := n - sent;
        }
        sent := sent + r;
        wire := old(wire) + frame[..sent];
      }
      return true;
    }

    // gw_tcp_send_alarm and the acknowledgement: one octet of body.
    method SendShort(msgType: byte, seqNo: byte, code: byte)
      requires Valid()
      modifies this`sends, this`wire, this`submitted, txFrame
      ensures Dv() == SubmitCompact(env, maxBody, old(Dv()), msgType, seqNo, code)
    {
      var plen := BuildCompactTx(msgType, seqNo, [code]);
      if plen > 0 {
        var _ := SendAll(plen);
      }
    }

    method ReportError(seqNo: byte, code: byte)
      requires Valid()
      modifies this`sends, this`wire, this`submitted, txFrame, latch
      ensures Dv() == Report(env, maxBody, old(Dv()), seqNo, code)
    {
      latch.Set(code);
      if code != NONE {
        SendShort(ALARM, seqNo, code);
      }
    }

    // --- SYNC ---

    // The clock, the gate and the port; the result is the error code to report.
    method ConfigureFrom(body: seq<byte>) returns (code: byte)
      requires Valid()
      modifies this`configures, this`clockReads, gate, gate.wall, port, port.ring
      ensures Valid() && (Dv(), code) == Configure(env, old(Dv()), body)
    {
      hide Calendar.Timegm, Conforms, Notify, BuildAssertion, UartConfig.Reconfigure;
      var chk := SyncBodyCheck(body);
      if |body| != SYNC_LEN {
        return INIT_CFG;
      }
      if chk != NONE {
        return chk;
      }
      gate.Notified(env.timegm, body[..TIME_LEN], env.uptime(clockReads));
      clockReads := clockReads + 1;
      var ok := port.Apply(env.configure(configures), body[TIME_LEN..], 0x01);
      configures := configures + 1;
      return if ok then NONE else INIT_CFG;
    }

    method ApplySyncAndRs232(body: seq<byte>, seqNo: byte)
      requires Valid()
      modifies this`sends, this`wire, this`submitted, this`configures, this`clockReads,
               txFrame, latch, gate, gate.wall, port, port.ring
      ensures Valid() && Dv() == ApplySync(env, maxBody, old(Dv()), body, seqNo)
    {
      hide Configure, Print, BuildAssertion;
      var code := ConfigureFrom(body);
      if code != NONE {
        ReportError(seqNo, code);
      } else {
        latch.Clear();
      }
      SendShort(ACK, seqNo, if code == NONE then 0 else 1);
    }

    // --- Modbus requests ---

    // gw_build_response82_tx; errors are 0.
    method BuildResponse82(seqNo: byte, resp: seq<byte>) returns (plen: nat)
      requires Valid()
      modifies this`clockReads, txFrame
      ensures |resp| > BODY_CAP ==> plen == 0 && clockReads == old(clockReads)
      ensures |resp| <= BODY_CAP ==>
                && 0 < plen <= TX_CAP && clockReads == old(clockReads) + 1
                && txFrame[..plen] == Response82(seqNo, Encode9(gate.wall.View(), env.uptime(old(clockReads))), resp)
    {
      if |resp| > BODY_CAP {
        return 0;
      }
      hide Encode9, PutBe16, Print, Response82;
      var bodyLen := TIME_LEN + |resp|;
      ghost var time := Encode9(gate.wall.View(), env.uptime(clockReads));
      ResponseLayout(seqNo, time, resp);
      txFrame[0] := STX;
      txFrame[1], txFrame[2] := bodyLen / 256, bodyLen % 256;
      txFrame[3], txFrame[4] := MODBUS_RESP, seqNo;
      ghost var head := [STX, bodyLen / 256, bodyLen % 256, MODBUS_RESP, seqNo];
      assert txFrame[..5] == head;
      gate.wall.EncodeNow9(env.uptime(clockReads), txFrame, 5);
      clockReads := clockReads + 1;
      assert txFrame[..5] == head;
      assert txFrame[..14] == txFrame[..5] + txFrame[5..14];
      PutTail(resp);
      return 15 + |resp|;
    }

    method PutTail(resp: seq<byte>)
      requires Valid() && |resp| <= BODY_CAP
      modifies txFrame
      ensures txFrame[..15 + |resp|] == old(txFrame[..14]) + resp + [ETX]
    {
      forall i | 0 <= i < |resp| { txFrame[14 + i] := resp[i]; }
      txFrame[14 + |resp|] := ETX;
    }

    method ServeRequest(seqNo: byte)
      requires Valid()
      modifies this`sends, this`wire, this`submitted, this`transactions, this`clockReads, txFrame, latch
      ensures Dv() == HandleRequest(env, maxBody, old(Dv()), seqNo)
    {
      hide Print, Encode9, Response82;
      var mb: seq<byte> := [];
      var attempt := 0;
      while attempt < RETRIES
        invariant attempt <= RETRIES && mb == []
        invariant Retry(env, transactions, RETRIES - attempt) == Retry(env, old(transactions), RETRIES)
        invariant Dv() == old(Dv()).(transactions := transactions)
      {
        var reply := env.uart(transactions);
        transactions := transactions + 1;
        if reply.ret == 0 && reply.resp != [] {
          mb := reply.resp;
          if latch.code == RS232_NO_RESPONSE {
            latch.Clear();
          }
          break;
        }
        attempt := attempt + 1;
      }
      if mb == [] {
        ReportError(seqNo, RS232_NO_RESPONSE);
      } else {
        var plen := BuildResponse82(seqNo, mb);
        if plen > 0 {
          var _ := SendAll(plen);
        }
      }
    }

    // --- The receive buffer ---

    method SkipToStx()
      requires Valid()
      modifies this`rlen, rbuf
      ensures Valid() && Pending() == Trim(old(Pending()))
    {
      ghost var s := rbuf[..rlen];
      var i := 0;
      while i < rlen && rbuf[i] != STX
        invariant i <= rlen && STX !in rbuf[..i]
        invariant rbuf[..rlen] == s
      {
        i := i + 1;
      }
      FirstStxIs(s, i);
      if i > 0 {
        Consume(i);
      }
    }

    // memmove of everything after the first n octets to the front
    method Consume(n: nat)
      requires Valid() && n <= rlen
      modifies this`rlen, rbuf
      ensures Valid() && Pending() == old(Pending())[n..]
    {
      ghost var s := rbuf[..rlen];
      assert s[n..] == rbuf[n..rlen];
      MoveDown(rbuf, n, rlen);
      rlen := rlen - n;
    }

    // gw_srv_rx_frame_info
    method SrvRxFrameInfo() returns (info: Info)
      requires Valid()
      ensures info == CompactInfo(maxBody, Pending())
    {
      ghost var p := Pending();
      if rlen < 3 {
        return Short;
      }
      if rbuf[0] != STX {
        return Bad(2);
      }
      if rbuf[1] == SYNC {
        if rlen < SYNC_FRAME {
          return Short;
        }
        if rbuf[SYNC_FRAME - 1] != ETX {
          return Bad(5);
        }
        return Complete(SYNC_FRAME);
      }
      for i := 3 to rlen
        invariant ScanEtx(maxBody, p, i) == ScanEtx(maxBody, p, 3)
      {
        if rbuf[i] == ETX {
          var bl := i - 3;
          return if bl > maxBody then Bad(3) else Complete(i + 1);
        }
        if i - 3 >= maxBody {
          return Bad(3);
        }
      }
      return Short;
    }

    // gw_srv_sess_rx_frame_info
    method SrvSessRxFrameInfo() returns (info: Info)
      requires Valid()
      ensures info == SessionInfo(maxBody, Pending())
    {
      if rlen < 6 {
        return Short;
      }
      if rbuf[0] != STX {
        return Bad(2);
      }
      var len := Be16(rbuf[1], rbuf[2]);
      if len > maxBody {
        return Bad(3);
      }
      var need := 5 + len + 1;
      if rlen < need {
        return Short;
      }
      if rbuf[5 + len] != ETX {
        return Bad(5);
      }
      return Complete(need);
    }

    // What is done with a complete frame, up to the memmove that removes it.
    method Dispatch(k: Kind, need: nat) returns (isSync: bool)
      requires Valid() && Header(k) < need <= rlen
      modifies this`sends, this`wire, this`submitted, this`transactions, this`configures, this`clockReads,
               txFrame, latch, gate, gate.wall, port, port.ring
      ensures Valid() && Dv() == Handle(env, maxBody, k, old(Dv()), Extract(k, old(Pending()), need))
      ensures isSync <==> Extract(k, old(Pending()), need).msgType == SYNC
    {
      hide ApplySync, HandleRequest;
      var h := Header(k);
      var msgType, seqNo := rbuf[h - 2], rbuf[h - 1];
      var body := rbuf[h..need - 1];
      SliceOfPrefix(rbuf[..], rlen, h, need - 1);
      assert rbuf[..][..rlen] == Pending() && rbuf[..][h..need - 1] == body;
      isSync := msgType == SYNC;
      if msgType == SYNC {
        ApplySyncAndRs232(body, seqNo);
      } else if k == Compact || msgType != MODBUS_REQ || |body| == 0 {
        return;
      } else {
        ServeRequest(seqNo);
      }
    }

    /** The parse loop: gw_process_frames_handshake for Compact, the inner loop of
        gw_handle_client for Session. The two differ in the header sizes, in the frame_info they
        call and in what they do with a frame. */
    method DrainLoop(k: Kind) returns (gotSync: bool)
      requires Valid()
      modifies this`rlen, this`sends, this`wire, this`submitted, this`transactions, this`configures, this`clockReads,
               rbuf, txFrame, latch, gate, gate.wall, port, port.ring
      ensures Valid() && Pending() == Rest(k, maxBody, old(Pending()))
      ensures Dv() == Run(env, maxBody, k, old(Dv()), Parsed(k, maxBody, old(Pending())))
      ensures gotSync <==> HasSync(Parsed(k, maxBody, old(Pending())))
    {
      hide Run, Parsed, Rest, Handle, Trim, CompactInfo, SessionInfo, Extract, ValidEnv, BuildAssertion, HasSync;
      gotSync := false;
      ghost var s0, d0 := Pending(), Dv();
      ghost var done: seq<Frame> := [];
      RunOfNone(env, maxBody, k, d0);
      NoSync();
      while rlen >= Least(k)
        invariant Valid()
        invariant Parsed(k, maxBody, s0) == done + Parsed(k, maxBody, Pending())
        invariant Rest(k, maxBody, s0) == Rest(k, maxBody, Pending())
        invariant Dv() == Run(env, maxBody, k, d0, done)
        invariant gotSync <==> HasSync(done)
        decreases rlen
      {
        ghost var s := Pending();
        DrainStep(k, maxBody, s);
        RestIsDrained(k, maxBody, s);
        assert done + [] == done;
        SkipToStx();
        if rlen < Least(k) {
          return;
        }
        ghost var t := Pending();
        var info;
        if k == Compact { info := SrvRxFrameInfo(); } else { info := SrvSessRxFrameInfo(); }
        if info.Bad? {
          Consume(1);
          continue;
        }
        if info.Short? || rlen < info.need {
          return;
        }
        ghost var f := Extract(k, t, info.need);
        var isSync := Dispatch(k, info.need);
        gotSync := gotSync || isSync;
        Consume(info.need);
        RunOneMore(env, maxBody, k, d0, done, f);
        SyncOneMore(done, f);
        done := done + [f];
      }
      RestOfFew(k, maxBody, Pending());
      assert done + [] == done;
    }

    // --- The receive loops ---

    method ResetIfFull()
      requires Valid()
      modifies this`rlen, this`fullResets
      ensures Valid()
      ensures old(rlen) < cap ==> rlen == old(rlen) && fullResets == old(fullResets)
      ensures old(rlen) == cap ==> rlen == 0 && fullResets == old(fullResets) + 1
    {
      if rlen >= cap {
        fullResets := fullResets + 1;
        rlen := 0;
      }
    }

    // zsock_recv appends what arrived; the room check is the caller's.
    method Append(chunk: seq<byte>)
      requires Valid() && rlen + |chunk| <= cap
      modifies this`rlen, rbuf
      ensures Valid() && Pending() == old(Pending()) + chunk
    {
      ghost var s := rbuf[..rlen];
      forall i | 0 <= i < |chunk| { rbuf[rlen + i] := chunk[i]; }
      rlen := rlen + |chunk|;
      assert rbuf[..rlen] == s + chunk;
    }

    // One turn of either loop: room, recv, drain.
    method Segment(k: Kind, input: seq<byte>, pos: nat, wish: nat) returns (n: nat, gotSync: bool)
      requires Valid() && rlen < cap && pos < |input|
      modifies this, rbuf, txFrame, latch, gate, gate.wall, port, port.ring
      ensures Valid() && fullResets == old(fullResets) && rlen <= MaxRest(k, maxBody)
      ensures n == Received(wish, cap - old(rlen), |input| - pos)
      ensures Pending() == Rest(k, maxBody, old(Pending()) + input[pos..pos + n])
      ensures Parsed(k, maxBody, Pending()) == [] && Rest(k, maxBody, Pending()) == Pending()
      ensures Dv() == Run(env, maxBody, k, old(Dv()), Parsed(k, maxBody, old(Pending()) + input[pos..pos + n]))
      ensures gotSync <==> HasSync(Parsed(k, maxBody, old(Pending()) + input[pos..pos + n]))
    {
      hide Run, Parsed, Rest, MaxRest, ValidEnv, BuildAssertion;
      ResetIfFull();
      n := Received(wish, cap - rlen, |input| - pos);
      ghost var s := Pending() + input[pos..pos + n];
      Append(input[pos..pos + n]);
      gotSync := DrainLoop(k);
      RestIsDrained(k, maxBody, s);
      RestBound(k, maxBody, s);
    }

    /** The session loop of gw_handle_client on a stream of octets, which recv cuts as it likes:
        the i-th call may return anything from one octet to all the room there is. Whatever it
        does, the gateway acts on exactly the frames of the whole stream, and the full-buffer
        reset never happens. */
    method SessionLoop(input: seq<byte>, sizes: nat -> nat)
      requires Valid() && rlen < cap && input != []
      modifies this, rbuf, txFrame, latch, gate, gate.wall, port, port.ring
      ensures Valid() && fullResets == old(fullResets)
      ensures rlen <= MaxRest(Session, maxBody)
      ensures Dv() == Run(env, maxBody, Session, old(Dv()), Parsed(Session, maxBody, old(Pending()) + input))
    {
      hide Run, Parsed, Rest, ValidEnv, BuildAssertion, MaxRest;
      RoomAfterRest(maxBody, cap);
      ghost var goal := Run(env, maxBody, Session, Dv(), Parsed(Session, maxBody, Pending() + input));
      var pos, turn := 0, 0;
      assert input[0..] == input;
      while pos < |input|
        invariant Valid() && rlen < cap && pos <= |input| && fullResets == old(fullResets)
        invariant Run(env, maxBody, Session, Dv(), Parsed(Session, maxBody, Pending() + input[pos..])) == goal
        invariant pos > 0 ==> Parsed(Session, maxBody, Pending()) == [] && rlen <= MaxRest(Session, maxBody)
      {
        ghost var d, kept := Dv(), Pending();
        var n, _ := Segment(Session, input, pos, sizes(turn));
        SessionStep(env, maxBody, d, kept, input, pos, n);
        pos, turn := pos + n, turn + 1;
      }
      assert Pending() + input[pos..] == Pending();
      RunOfNone(env, maxBody, Session, Dv());
    }

    /** The receive side of gw_tcp_handshake: takes exactly the segments up to the first drain that
        saw a SYNC and acts on the compact frames of the octets in them; one frame's worth of
        room is always left. */
    method HandshakeLoop(input: seq<byte>, sizes: nat -> nat) returns (synced: bool, used: nat)
      requires Valid() && rlen == 0 && cap >= SYNC_FRAME
      modifies this, rbuf, txFrame, latch, gate, gate.wall, port, port.ring
      ensures Valid() && fullResets == old(fullResets)
      ensures used <= |input| && (!synced ==> used == |input|)
      ensures used == |Joined(HandshakeSegments(maxBody, cap, sizes, 0, [], input))|
      ensures rlen <= MaxRest(Compact, maxBody) < cap
      ensures Dv() == Run(env, maxBody, Compact, old(Dv()), Parsed(Compact, maxBody, input[..used]))
      ensures synced <==> HasSync(Parsed(Compact, maxBody, input[..used]))
      ensures Trim(Pending()) == Trim(Rest(Compact, maxBody, input[..used]))
    {
      hide Run, Parsed, Rest, Trim, HandshakeSegments, HasSync, Joined;
      ghost var d0 := Dv();
      synced, used := false, 0;
      var turn := 0;
      RunOfNone(env, maxBody, Compact, d0);
      RestOfFew(Compact, maxBody, []);
      NoSync();
      assert input[..0] == [] && input[0..] == input && Pending() == [];
      ghost var goal := |Joined(HandshakeSegments(maxBody, cap, sizes, 0, [], input))|;
      while !synced && used < |input|
        invariant Valid() && used <= |input| && fullResets == old(fullResets)
        invariant rlen <= MaxRest(Compact, maxBody) < cap
        invariant Dv() == Run(env, maxBody, Compact, d0, Parsed(Compact, maxBody, input[..used]))
        invariant synced <==> HasSync(Parsed(Compact, maxBody, input[..used]))
        invariant Parsed(Compact, maxBody, Pending()) == [] && Rest(Compact, maxBody, Pending()) == Pending()
        invariant Trim(Pending()) == Trim(Rest(Compact, maxBody, input[..used]))
        invariant goal == used +
                  if synced then 0 else |Joined(HandshakeSegments(maxBody, cap, sizes, turn, Pending(), input[used..]))|
        decreases !synced, |input| - used
      {
        ghost var before, kept := input[..used], Pending();
        var n;
        n, synced := Segment(Compact, input, used, sizes(turn));
        ghost var chunk := input[used..used + n];
        HandshakeStep(maxBody, before, kept, chunk);
        SegmentsStep(maxBody, cap, sizes, turn, kept, input, used);
        SyncInParts(Parsed(Compact, maxBody, before), Parsed(Compact, maxBody, kept + chunk));
        assert input[..used + n] == before + chunk;
        RunAppend(env, maxBody, Compact, d0, Parsed(Compact, maxBody, before), Parsed(Compact, maxBody, kept + chunk));
        used, turn := used + n, turn + 1;
      }
      if !synced {
        assert input[used..] == [];
        NoSegments(maxBody, cap, sizes, turn, Pending());
      }
    }

    /** gw_handle_client on everything one connection delivers before it ends: the compact frames
        up to the end of the segment that completes a SYNC, then, with the error latch cleared,
        the session frames of whatever the compact parser left over followed by the rest of the
        stream, if there is a rest. The end of the connection is latched. */
    method HandleClient(input: seq<byte>, hsSizes: nat -> nat, sizes: nat -> nat) returns (synced: bool, used: nat)
      requires Valid() && cap >= SYNC_FRAME
      modifies this, rbuf, txFrame, latch, gate, gate.wall, port, port.ring
      ensures Valid() && fullResets == old(fullResets) && used <= |input|
      ensures synced <==> HasSync(Parsed(Compact, maxBody, input[..used]))
      ensures !synced ==> used == |input|
      ensures used == |Joined(HandshakeSegments(maxBody, cap, hsSizes, 0, [], input))|
      ensures Dv() == AfterClient(env, maxBody, old(Dv()), input, used).(err := TCP_COMM)
      // A SYNC and octets the handshake cannot decide on end it: then the SYNC is acted on and, if
      // the stream goes on, every frame printed behind the SYNC, wherever the segment ended.
      ensures forall sync: Frame, items: seq<(seq<byte>, Frame)> ::
                Backlog(maxBody, input, used, sync) && Serviceable(maxBody, items)
                && input[SYNC_FRAME..] == PrintAll(Session, items) && used < |input| ==>
                  Dv() == Run(env, maxBody, Session,
                              Handle(env, maxBody, Compact, old(Dv()), sync).(err := NONE),
                              FramesOf(items)).(err := TCP_COMM)
      ensures forall sync: Frame :: Backlog(maxBody, input, used, sync) && used == |input| ==>
                Dv() == Handle(env, maxBody, Compact, old(Dv()), sync).(err := TCP_COMM)
    {
      hide Run, Parsed, Rest, Trim, AfterClient, Backlog, Serviceable, Handle, PrintAll, FramesOf;
      rlen := 0;
      synced, used := HandshakeLoop(input, hsSizes);
      if synced {
        latch.Clear();
      }
      ghost var d0 := old(Dv());
      ClientCases(env, maxBody, d0, input, used);
      if used < |input| {
        ghost var left := Rest(Compact, maxBody, input[..used]);
        JunkBeforeTrim(Session, maxBody, Pending(), input[used..]);
        JunkBeforeTrim(Session, maxBody, left, input[used..]);
        SessionLoop(input[used..], sizes);
      }
      latch.Set(TCP_COMM);
    }
  }

  // The device before the end of a connection is latched, when the handshake took the first used
  // octets.
  function AfterClient(env: Env, maxBody: nat, d: Dev, input: seq<byte>, used: nat): Dev
    requires used <= |input|
  {
    var d1 := Run(env, maxBody, Compact, d, Parsed(Compact, maxBody, input[..used]));
    if used == |input| then d1
    else Run(env, maxBody, Session, d1.(err := NONE),
             Parsed(Session, maxBody, Rest(Compact, maxBody, input[..used]) + input[used..]))
  }

  // The first used octets are a SYNC frame and octets the handshake cannot decide on.
  predicate Backlog(maxBody: nat, input: seq<byte>, used: nat, sync: Frame) {
    && sync.msgType == SYNC && |sync.body| == SYNC_BODY && SYNC_FRAME <= used <= |input|
    && input[..SYNC_FRAME] == Print(Compact, sync) && Undecided(maxBody, input[SYNC_FRAME..used])
  }

  // Session frames with anything free of STX in front of each.
  predicate Serviceable(maxBody: nat, items: seq<(seq<byte>, Frame)>) {
    forall x :: x in items ==> STX !in x.0 && WellFormed(Session, maxBody, x.1)
  }

  /** What a connection comes to when the handshake took the first used octets of it. */
  lemma ClientCases(env: Env, maxBody: nat, d: Dev, input: seq<byte>, used: nat)
    requires maxBody < 0x1_0000 && used <= |input|
    ensures AfterClient(env, maxBody, d, input, used) ==
            var d1 := Run(env, maxBody, Compact, d, Parsed(Compact, maxBody, input[..used]));
            if used == |input| then d1
            else Run(env, maxBody, Session, d1.(err := NONE),
                     Parsed(Session, maxBody, Rest(Compact, maxBody, input[..used]) + input[used..]))
    ensures forall sync: Frame, items: seq<(seq<byte>, Frame)> ::
              Backlog(maxBody, input, used, sync) && Serviceable(maxBody, items)
              && input[SYNC_FRAME..] == PrintAll(Session, items) && used < |input| ==>
                AfterClient(env, maxBody, d, input, used) ==
                Run(env, maxBody, Session, Handle(env, maxBody, Compact, d, sync).(err := NONE), FramesOf(items))
    ensures forall sync: Frame :: Backlog(maxBody, input, used, sync) && used == |input| ==>
              AfterClient(env, maxBody, d, input, used) == Handle(env, maxBody, Compact, d, sync)
  {
    hide Run, Parsed, Rest, Handle, PrintAll, FramesOf, Print, Undecided, Serviceable;
    forall sync: Frame, items: seq<(seq<byte>, Frame)> |
      Backlog(maxBody, input, used, sync) && Serviceable(maxBody, items)
      && input[SYNC_FRAME..] == PrintAll(Session, items) && used < |input|
      ensures AfterClient(env, maxBody, d, input, used) ==
              Run(env, maxBody, Session, Handle(env, maxBody, Compact, d, sync).(err := NONE), FramesOf(items))
    {
      BacklogEffect(env, maxBody, d, input, used, sync);
      BacklogServed(maxBody, items);
    }
    forall sync: Frame | Backlog(maxBody, input, used, sync) && used == |input|
      ensures AfterClient(env, maxBody, d, input, used) == Handle(env, maxBody, Compact, d, sync)
    {
      BacklogEffect(env, maxBody, d, input, used, sync);
    }
  }

  lemma BacklogServed(maxBody: nat, items: seq<(seq<byte>, Frame)>)
    requires maxBody < 0x1_0000 && Serviceable(maxBody, items)
    ensures Parsed(Session, maxBody, PrintAll(Session, items)) == FramesOf(items)
  {
    ParseInvertsPrint(Session, maxBody, items);
  }

  lemma BacklogEffect(env: Env, maxBody: nat, d: Dev, input: seq<byte>, used: nat, sync: Frame)
    requires maxBody < 0x1_0000 && Backlog(maxBody, input, used, sync)
    ensures used <= |input|
    ensures Run(env, maxBody, Compact, d, Parsed(Compact, maxBody, input[..used])) ==
            Handle(env, maxBody, Compact, d, sync)
    ensures Rest(Compact, maxBody, input[..used]) + input[used..] == input[SYNC_FRAME..]
  {
    hide Parsed, Rest, Handle, Print, Undecided;
    var tail := input[SYNC_FRAME..used];
    assert input[..used] == input[..SYNC_FRAME] + tail;
    HandoverIff(maxBody, sync, tail);
    RunOneMore(env, maxBody, Compact, d, [], sync);
    assert [] + [sync] == [sync];
  }

  // What recv returns: at least one octet, at most what arrived and what fits.
  function Received(wish: nat, room: nat, left: nat): (n: nat)
    requires room > 0 && left > 0
    ensures 1 <= n <= room && n <= left
  {
    var most := if room < left then room else left;
    if wish < 1 then 1 else if wish > most then most else wish
  }

  // The segments recv hands to the handshake, from its turn on with kept in the buffer: up to the
  // first whose drain sees a SYNC.
  function HandshakeSegments(maxBody: nat, cap: nat, sizes: nat -> nat, turn: nat, kept: seq<byte>, input: seq<byte>):
      seq<seq<byte>>
    requires BuildAssertion(maxBody, cap) && cap >= SYNC_FRAME && |kept| < cap
    decreases |input|
  {
    if input == [] then []
    else
      var n := Received(sizes(turn), cap - |kept|, |input|);
      var s := kept + input[..n];
      RestBound(Compact, maxBody, s);
      if HasSync(Parsed(Compact, maxBody, s)) then [input[..n]]
      else [input[..n]] + HandshakeSegments(maxBody, cap, sizes, turn + 1, Rest(Compact, maxBody, s), input[n..])
  }

  /** These segments are a prefix of the stream. No drain before the last of them has seen a SYNC,
      and the last has unless the stream ended. */
  lemma {:induction false} StopsAtFirstSync(maxBody: nat, cap: nat, sizes: nat -> nat, turn: nat,
                                            kept: seq<byte>, input: seq<byte>)
    requires BuildAssertion(maxBody, cap) && cap >= SYNC_FRAME && |kept| < cap
    requires Parsed(Compact, maxBody, kept) == [] && Rest(Compact, maxBody, kept) == kept
    ensures var segs := HandshakeSegments(maxBody, cap, sizes, turn, kept, input);
            && Joined(segs) <= input
            && (forall i :: 0 <= i < |segs| ==> !HasSync(Parsed(Compact, maxBody, kept + Joined(segs[..i]))))
            && (HasSync(Parsed(Compact, maxBody, kept + Joined(segs))) || Joined(segs) == input)
    decreases |input|
  {
    hide Parsed, Rest, HasSync;
    if input != [] {
      var n := Received(sizes(turn), cap - |kept|, |input|);
      var chunk, later := input[..n], input[n..];
      var s := kept + chunk;
      var segs := HandshakeSegments(maxBody, cap, sizes, turn, kept, input);
      NoSync();
      assert input == chunk + later && kept + [] == kept;
      if HasSync(Parsed(Compact, maxBody, s)) {
        assert segs == [chunk] && segs[..0] == [] && Joined(segs) == chunk + Joined(segs[1..]) == chunk;
      } else {
        RestBound(Compact, maxBody, s);
        RestIsDrained(Compact, maxBody, s);
        var r := Rest(Compact, maxBody, s);
        var rest := HandshakeSegments(maxBody, cap, sizes, turn + 1, r, later);
        StopsAtFirstSync(maxBody, cap, sizes, turn + 1, r, later);
        assert segs == [chunk] + rest && segs[1..] == rest;
        SyncAfter(maxBody, kept, chunk, Joined(rest));
        forall i | 0 <= i < |segs| ensures !HasSync(Parsed(Compact, maxBody, kept + Joined(segs[..i]))) {
          if i == 0 {
            assert segs[..0] == [];
          } else {
            assert segs[..i][1..] == rest[..i - 1];
            SyncAfter(maxBody, kept, chunk, Joined(rest[..i - 1]));
          }
        }
      }
    }
  }

  lemma SyncAfter(maxBody: nat, kept: seq<byte>, chunk: seq<byte>, more: seq<byte>)
    ensures var s := kept + chunk;
            HasSync(Parsed(Compact, maxBody, kept + (chunk + more))) <==>
            HasSync(Parsed(Compact, maxBody, s)) || HasSync(Parsed(Compact, maxBody, Rest(Compact, maxBody, s) + more))
  {
    hide Parsed, Rest, HasSync;
    var s := kept + chunk;
    assert kept + (chunk + more) == s + more;
    ChunkIndependence(Compact, maxBody, s, more);
    SyncInParts(Parsed(Compact, maxBody, s), Parsed(Compact, maxBody, Rest(Compact, maxBody, s) + more));
  }

  lemma NoSegments(maxBody: nat, cap: nat, sizes: nat -> nat, turn: nat, kept: seq<byte>)
    requires BuildAssertion(maxBody, cap) && cap >= SYNC_FRAME && |kept| < cap
    ensures |Joined(HandshakeSegments(maxBody, cap, sizes, turn, kept, []))| == 0
  {}

  lemma SyncInParts(a: seq<Frame>, b: seq<Frame>)
    ensures HasSync(a + b) <==> HasSync(a) || HasSync(b)
  {
    assert forall f :: f in a + b <==> f in a || f in b;
  }

  // One turn of the handshake on the rest of the stream.
  lemma SegmentsStep(maxBody: nat, cap: nat, sizes: nat -> nat, turn: nat, kept: seq<byte>, input: seq<byte>, pos: nat)
    requires BuildAssertion(maxBody, cap) && cap >= SYNC_FRAME && |kept| < cap && pos < |input|
    ensures var n := Received(sizes(turn), cap - |kept|, |input| - pos);
            var s := kept + input[pos..pos + n];
            var r := Rest(Compact, maxBody, s);
            && |r| < cap
            && |Joined(HandshakeSegments(maxBody, cap, sizes, turn, kept, input[pos..]))| == n +
               if HasSync(Parsed(Compact, maxBody, s)) then 0
               else |Joined(HandshakeSegments(maxBody, cap, sizes, turn + 1, r, input[pos + n..]))|
  {
    hide HandshakeSegments, Parsed, Rest, HasSync, Joined;
    var n := Received(sizes(turn), cap - |kept|, |input| - pos);
    RestBound(Compact, maxBody, kept + input[pos..pos + n]);
    assert input[pos..][..n] == input[pos..pos + n] && input[pos..][n..] == input[pos + n..];
    FirstSegment(maxBody, cap, sizes, turn, kept, input[pos..]);
  }

  lemma FirstSegment(maxBody: nat, cap: nat, sizes: nat -> nat, turn: nat, kept: seq<byte>, input: seq<byte>)
    requires BuildAssertion(maxBody, cap) && cap >= SYNC_FRAME && |kept| < cap && input != []
    ensures var n := Received(sizes(turn), cap - |kept|, |input|);
            var s := kept + input[..n];
            var r := Rest(Compact, maxBody, s);
            && |r| < cap
            && |Joined(HandshakeSegments(maxBody, cap, sizes, turn, kept, input))| == n +
               if HasSync(Parsed(Compact, maxBody, s)) then 0
               else |Joined(HandshakeSegments(maxBody, cap, sizes, turn + 1, r, input[n..]))|
  {
    hide Parsed, Rest, HasSync, Joined;
    var n := Received(sizes(turn), cap - |kept|, |input|);
    var s := kept + input[..n];
    RestBound(Compact, maxBody, s);
    if HasSync(Parsed(Compact, maxBody, s)) {
      JoinedOne(input[..n], []);
      assert [input[..n]] + [] == [input[..n]];
    } else {
      JoinedOne(input[..n], HandshakeSegments(maxBody, cap, sizes, turn + 1, Rest(Compact, maxBody, s), input[n..]));
    }
  }

  lemma JoinedOne(part: seq<byte>, parts: seq<seq<byte>>)
    ensures |Joined([part] + parts)| == |part| + |Joined(parts)|
    ensures parts == [] ==> Joined(parts) == []
  {
    assert ([part] + parts)[1..] == parts;
  }

  lemma {:induction false} FirstStxIs(s: seq<byte>, i: nat)
    requires i <= |s| && STX !in s[..i] && (i < |s| ==> s[i] == STX)
    ensures FirstStx(s) == i
  {
    if i > 0 {
      assert s[0] in s[..i];
      assert s[1..][..i - 1] == s[..i][1..];
      FirstStxIs(s[1..], i - 1);
    }
  }

  lemma ResponseLayout(seqNo: byte, time: seq<byte>, resp: seq<byte>)
    requires |time| == TIME_LEN && |resp| <= BODY_CAP
    ensures var n := TIME_LEN + |resp|;
            Response82(seqNo, time, resp) == [STX, n / 256, n % 256, MODBUS_RESP, seqNo] + time + resp + [ETX]
  {
    var n := |time + resp|;
    assert n % 0x1_0000 == n;
    assert PutBe16(n) == [n / 256, n % 256];
  }

  lemma RunOfNone(env: Env, maxBody: nat, k: Kind, d: Dev)
    ensures Run(env, maxBody, k, d, []) == d
  {}

  lemma RunOneMore(env: Env, maxBody: nat, k: Kind, d: Dev, done: seq<Frame>, f: Frame)
    ensures Run(env, maxBody, k, d, done + [f]) == Handle(env, maxBody, k, Run(env, maxBody, k, d, done), f)
  {
    RunAppend(env, maxBody, k, d, done, [f]);
    var d1 := Run(env, maxBody, k, d, done);
    assert Run(env, maxBody, k, d1, [f]) == Run(env, maxBody, k, Handle(env, maxBody, k, d1, f), []);
  }

  lemma RestOfFew(k: Kind, maxBody: nat, s: seq<byte>)
    requires |s| < Least(k)
    ensures Parsed(k, maxBody, s) == [] && Rest(k, maxBody, s) == s
  {
    SmallDrain(k, maxBody, s);
  }

  lemma NoSync()
    ensures !HasSync([])
  {}

  lemma SyncOneMore(done: seq<Frame>, f: Frame)
    ensures HasSync(done + [f]) <==> HasSync(done) || f.msgType == SYNC
  {
    SyncInParts(done, [f]);
    assert f in [f];
  }

  lemma RoomAfterRest(maxBody: nat, cap: nat)
    requires BuildAssertion(maxBody, cap)
    ensures MaxRest(Session, maxBody) < cap
  {}

  lemma SessionStep(env: Env, maxBody: nat, d: Dev, kept: seq<byte>, input: seq<byte>, pos: nat, n: nat)
    requires pos + n <= |input|
    ensures var a := kept + input[pos..pos + n];
            Run(env, maxBody, Session, d, Parsed(Session, maxBody, kept + input[pos..])) ==
            Run(env, maxBody, Session, Run(env, maxBody, Session, d, Parsed(Session, maxBody, a)),
                Parsed(Session, maxBody, Rest(Session, maxBody, a) + input[pos + n..]))
  {
    hide Parsed, Rest, Run;
    var a, b := kept + input[pos..pos + n], input[pos + n..];
    assert kept + input[pos..] == a + b;
    ChunkIndependence(Session, maxBody, a, b);
    var rest := Rest(Session, maxBody, a);
    RunAppend(env, maxBody, Session, d, Parsed(Session, maxBody, a), Parsed(Session, maxBody, rest + b));
  }

  lemma HandshakeStep(maxBody: nat, before: seq<byte>, kept: seq<byte>, chunk: seq<byte>)
    requires Trim(kept) == Trim(Rest(Compact, maxBody, before))
    ensures Parsed(Compact, maxBody, before + chunk) ==
            Parsed(Compact, maxBody, before) + Parsed(Compact, maxBody, kept + chunk)
    ensures Trim(Rest(Compact, maxBody, before + chunk)) == Trim(Rest(Compact, maxBody, kept + chunk))
  {
    hide Parsed, Rest, Trim;
    ChunkIndependence(Compact, maxBody, before, chunk);
    JunkBeforeTrim(Compact, maxBody, kept, chunk);
    JunkBeforeTrim(Compact, maxBody, Rest(Compact, maxBody, before), chunk);
  }
}
