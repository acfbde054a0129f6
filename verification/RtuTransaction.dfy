/** The receive side of one Modbus RTU transaction: the two loops that gather the reply while the
    interrupt routine fills the ring, up to the deadline, an abort or enough octets. */
module RtuTransaction {
  import opened Bytes
  import opened ResponseAlign
  import RxRing

  const ECANCELED: int := -140

  // One turn of a receive loop before the deadline: whether it finds the abort flag set, and what
  // the interrupt routine has pushed since the turn before. The deadline follows the last turn.
  datatype Turn = Turn(aborted: bool, arrived: seq<byte>)

  // How the loops end: the octets gathered and those still in the ring.
  datatype Gathered = Gathered(aborted: bool, rx: seq<byte>, unread: seq<byte>)

  // The octets the loops wait for; without a prediction those of an exception.
  predicate Enough(req: seq<byte>, n: nat) {
    if Expected(req) > 0 then n >= Expected(req) else n >= 5
  }

  function InRing(unread: seq<byte>, arrived: seq<byte>): seq<byte> {
    RxRing.Newest(unread + arrived, RxRing.ROOM)
  }

  // The inner loop: octets move to rx up to the limit; the one that meets a full buffer is lost.
  function Taken(limit: nat, rx: seq<byte>, q: seq<byte>): (seq<byte>, seq<byte>)
    requires |rx| <= limit
  {
    var room := limit - |rx|;
    if |q| <= room then (rx + q, []) else (rx + q[..room], q[room + 1..])
  }

  // The second loop, from its test on.
  function More(req: seq<byte>, limit: nat, rx: seq<byte>, unread: seq<byte>, turns: seq<Turn>): (r: Gathered)
    requires |rx| <= limit
    ensures |r.rx| <= limit
    decreases |turns|
  {
    if turns == [] || |rx| >= limit then Gathered(false, rx, unread)
    else
      var (rx', left) := Taken(limit, rx, InRing(unread, turns[0].arrived));
      if Enough(req, |rx'|) then Gathered(false, rx', left)
      else if turns[0].aborted then Gathered(true, rx', left)
      else More(req, limit, rx', left, turns[1..])
  }

  // The first loop, which waits for one octet.
  function Await(req: seq<byte>, limit: nat, unread: seq<byte>, turns: seq<Turn>): (r: Gathered)
    requires limit >= 1
    ensures |r.rx| <= limit
    decreases |turns|
  {
    if turns == [] then Gathered(false, [], unread)
    else
      var q := InRing(unread, turns[0].arrived);
      if turns[0].aborted then Gathered(true, [], q)
      else if q == [] then Await(req, limit, q, turns[1..])
      else More(req, limit, [q[0]], q[1..], turns[1..])
  }

  function Limit(cap: nat): nat {
    if cap > RX_MAX then RX_MAX else cap
  }

  function Outcome(req: seq<byte>, cap: nat, unread: seq<byte>, turns: seq<Turn>): (r: Reply)
    requires |req| >= 1 && cap >= 1
    ensures |r.resp| <= cap
  {
    var g := Await(req, Limit(cap), unread, turns);
    if g.aborted then Reply(ECANCELED, g.rx) else RtuReply(req, g.rx)
  }

  // One turn of each loop.
  lemma AwaitTurn(req: seq<byte>, limit: nat, unread: seq<byte>, turns: seq<Turn>)
    requires limit >= 1
    ensures Await(req, limit, unread, turns) ==
            if turns == [] then Gathered(false, [], unread)
            else
              var q := InRing(unread, turns[0].arrived);
              if turns[0].aborted then Gathered(true, [], q)
              else if q == [] then Await(req, limit, [], turns[1..])
              else More(req, limit, [q[0]], q[1..], turns[1..])
  {}

  lemma MoreTurn(req: seq<byte>, limit: nat, rx: seq<byte>, unread: seq<byte>, turns: seq<Turn>)
    requires |rx| <= limit
    ensures More(req, limit, rx, unread, turns) ==
            if turns == [] || |rx| >= limit then Gathered(false, rx, unread)
            else
              var (rx', left) := Taken(limit, rx, InRing(unread, turns[0].arrived));
              if Enough(req, |rx'|) then Gathered(false, rx', left)
              else if turns[0].aborted then Gathered(true, rx', left)
              else More(req, limit, rx', left, turns[1..])
  {}

  lemma TakeOne(limit: nat, rx: seq<byte>, ch: byte, q: seq<byte>)
    requires |rx| <= limit
    ensures Taken(limit, rx, []) == (rx, [])
    ensures Taken(limit, rx, [ch] + q) == if |rx| == limit then (rx, q) else Taken(limit, rx + [ch], q)
  {
    var all := [ch] + q;
    assert rx + [] == rx && all[1..] == q && all[..0] == [];
    var room := limit - |rx|;
    if room > 0 {
      assert rx + [ch] + q == rx + all;
      if |all| > room {
        assert all[..room] == [ch] + q[..room - 1] && all[room + 1..] == q[room..];
        assert rx + [ch] + q[..room - 1] == rx + all[..room];
      }
    }
  }

  // The inner loop of the second one.
  method Take(ring: RxRing.Ring, resp: array<byte>, from: nat, limit: nat) returns (n: nat)
    requires ring.Valid() && resp != ring.slots && from <= limit <= resp.Length
    modifies ring`tail, resp
    ensures ring.Valid() && from <= n <= limit
    ensures (resp[..n], ring.Contents()) == Taken(limit, old(resp[..from]), old(ring.Contents()))
  {
    hide *;
    ghost var goal := Taken(limit, resp[..from], ring.Contents());
    n := from;
    ghost var q := ring.Contents();
    var got, ch := ring.Pop();
    TakeOne(limit, resp[..n], ch, ring.Contents());
    assert got ==> q == [ch] + ring.Contents();
    while got && n < limit
      invariant ring.Valid() && from <= n <= limit
      invariant got ==> Taken(limit, resp[..n], [ch] + ring.Contents()) == goal
      invariant !got ==> ring.Contents() == [] && Taken(limit, resp[..n], []) == goal
      decreases limit - n
    {
      TakeOne(limit, resp[..n], ch, ring.Contents());
      ghost var before := resp[..n];
      resp[n] := ch;
      n := n + 1;
      assert resp[..n] == before + [ch];
      q := ring.Contents();
      got, ch := ring.Pop();
      assert got ==> q == [ch] + ring.Contents();
    }
    TakeOne(limit, resp[..n], ch, ring.Contents());
  }

  /** rs232_modbus_txrx from the end of sending on, for an RTU port with interrupts: the return
      code and the octets are those of Outcome, and no octet of this transaction stays in the ring
      for the next one. */
  method Receive(ring: RxRing.Ring, req: seq<byte>, turns: seq<Turn>, resp: array<byte>) returns (ret: int, n: nat)
    requires ring.Valid() && resp != ring.slots && |req| >= 1 && resp.Length >= 1
    modifies ring, ring.slots, resp
    ensures ring.Valid() && ring.Contents() == []
    ensures n <= resp.Length && Reply(ret, resp[..n]) == Outcome(req, resp.Length, old(ring.Contents()), turns)
  {
    hide More, Await, RxRing.Newest, RxRing.Unread, Align, Enough, Taken, Expected;
    var limit := Limit(resp.Length);
    ghost var goal := Await(req, limit, ring.Contents(), turns);
    var i := 0;
    n := 0;
    assert turns[0..] == turns;
    while i < |turns| && n == 0
      invariant i <= |turns| && ring.Valid() && n <= 1
      invariant n == 0 ==> Await(req, limit, ring.Contents(), turns[i..]) == goal
      invariant n == 1 ==> More(req, limit, resp[..1], ring.Contents(), turns[i..]) == goal
      decreases |turns| - i
    {
      AwaitTurn(req, limit, ring.Contents(), turns[i..]);
      assert turns[i..][1..] == turns[i + 1..];
      ring.Push(turns[i].arrived);
      if turns[i].aborted {
        ring.Reset();
        return ECANCELED, 0;
      }
      var got, ch := ring.Pop();
      if got {
        resp[0] := ch;
        n := 1;
        assert resp[..1] == [ch];
      }
      i := i + 1;
    }
    if n == 0 {
      AwaitTurn(req, limit, ring.Contents(), turns[i..]);
      ring.Reset();
      return ETIMEDOUT, 0;
    }
    var aborted;
    aborted, n := Gather(ring, req, turns[i..], resp, limit);
    if aborted {
      ring.Reset();
      return ECANCELED, n;
    }
    ret, n := Finalize(req, resp, n);
    // After a success the ring is emptied octet by octet, after a failure it is reset.
    ring.Reset();
  }

  // The second loop.
  method Gather(ring: RxRing.Ring, req: seq<byte>, turns: seq<Turn>, resp: array<byte>, limit: nat)
    returns (aborted: bool, n: nat)
    requires ring.Valid() && resp != ring.slots && 1 <= limit <= resp.Length
    modifies ring, ring.slots, resp
    ensures ring.Valid() && 1 <= n <= limit
    ensures Gathered(aborted, resp[..n], ring.Contents()) ==
            More(req, limit, old(resp[..1]), old(ring.Contents()), turns)
  {
    hide More, Taken, RxRing.Newest, RxRing.Unread, Enough, Expected;
    ghost var goal := More(req, limit, resp[..1], ring.Contents(), turns);
    var i := 0;
    n := 1;
    assert turns[0..] == turns;
    while i < |turns| && n < limit
      invariant i <= |turns| && ring.Valid() && 1 <= n <= limit
      invariant More(req, limit, resp[..n], ring.Contents(), turns[i..]) == goal
      decreases |turns| - i
    {
      label L:
      MoreTurn(req, limit, resp[..n], ring.Contents(), turns[i..]);
      assert turns[i..][1..] == turns[i + 1..];
      ring.Push(turns[i].arrived);
      assert ring.Contents() == InRing(old@L(ring.Contents()), turns[i].arrived);
      n := Take(ring, resp, n, limit);
      if Enough(req, n) {
        return false, n;
      }
      if turns[i].aborted {
        return true, n;
      }
      i := i + 1;
    }
    MoreTurn(req, limit, resp[..n], ring.Contents(), turns[i..]);
    aborted := false;
  }

  // rs232_modbus_finalize_response
  method Finalize(req: seq<byte>, resp: array<byte>, len: nat) returns (ret: int, n: nat)
    requires |req| >= 1 && 1 <= len <= resp.Length && len <= RX_MAX
    modifies resp
    ensures n <= resp.Length && Reply(ret, resp[..n]) == RtuReply(req, old(resp[..len]))
  {
    ret, n := AlignPassThrough(req, resp, len);
    if ret != 0 {
      return EIO, 0;
    }
  }

  // --- What arrives undisturbed ---

  // Everything pushed over the turns.
  function Arrived(turns: seq<Turn>): seq<byte> {
    if turns == [] then [] else turns[0].arrived + Arrived(turns[1..])
  }

  predicate Undisturbed(turns: seq<Turn>) {
    forall t :: t in turns ==> !t.aborted
  }

  // The line delivers exactly s, with a turn to spare before the deadline and no abort.
  predicate Delivers(turns: seq<Turn>, s: seq<byte>) {
    Undisturbed(turns) && turns != [] && turns[|turns| - 1].arrived == [] && Arrived(turns) == s
  }

  lemma DeliversRest(turns: seq<Turn>, s: seq<byte>)
    requires Delivers(turns, s)
    ensures turns != [] && !turns[0].aborted && Undisturbed(turns[1..])
    ensures s == turns[0].arrived + Arrived(turns[1..])
    ensures turns[0].arrived != [] ==> turns[1..] != []
    ensures turns[1..] == [] ==> s == []
    ensures turns[1..] != [] ==> Delivers(turns[1..], Arrived(turns[1..]))
  {
    assert turns[0] in turns;
  }

  lemma TakesAll(limit: nat, rx: seq<byte>, unread: seq<byte>, arrived: seq<byte>)
    requires |rx| <= limit && |unread| + |arrived| <= RxRing.ROOM
    ensures var (rx', left) := Taken(limit, rx, InRing(unread, arrived));
            if |rx| + |unread| + |arrived| <= limit then rx' == rx + (unread + arrived) && left == []
            else rx <= rx' <= rx + (unread + arrived) && |rx'| == limit
  {
    var q := unread + arrived;
    assert InRing(unread, arrived) == q;
    if |q| > limit - |rx| { assert q[..limit - |rx|] <= q; }
  }

  lemma {:induction false} MoreGathers(req: seq<byte>, limit: nat, rx: seq<byte>, unread: seq<byte>, turns: seq<Turn>)
    requires Undisturbed(turns) && turns != []
    requires |rx| <= limit && |unread| + |Arrived(turns)| <= RxRing.ROOM
    ensures var g := More(req, limit, rx, unread, turns);
            !g.aborted && rx <= g.rx <= rx + (unread + Arrived(turns))
            && (g.rx == rx + (unread + Arrived(turns)) || Enough(req, |g.rx|) || |g.rx| == limit)
    decreases |turns|
  {
    hide Taken, InRing, Enough, Arrived, More;
    MoreTurn(req, limit, rx, unread, turns);
    if |rx| < limit {
      var arrived, rest := turns[0].arrived, Arrived(turns[1..]);
      ArrivedFirst(turns);
      ArrivedFirst(turns[1..]);
      var (rx', left) := Taken(limit, rx, InRing(unread, arrived));
      TakesAll(limit, rx, unread, arrived);
      assert turns[0] in turns;
      Regroup(rx, unread, arrived, rest);
      if !Enough(req, |rx'|) {
        MoreTurn(req, limit, rx', left, turns[1..]);
        if turns[1..] != [] && |rx'| < limit {
          assert rx' + ([] + rest) == rx' + rest;
          MoreGathers(req, limit, rx', [], turns[1..]);
        }
      }
    }
  }

  lemma ArrivedFirst(turns: seq<Turn>)
    ensures Arrived(turns) == if turns == [] then [] else turns[0].arrived + Arrived(turns[1..])
  {}

  /** The loops gather a prefix of what arrived, and all of it unless they had enough before or the
      buffer was full. */
  lemma {:induction false} AwaitGathers(req: seq<byte>, limit: nat, turns: seq<Turn>, s: seq<byte>)
    requires Delivers(turns, s) && |s| <= RxRing.ROOM && limit >= 1
    ensures var g := Await(req, limit, [], turns);
            !g.aborted && g.rx <= s && (g.rx == s || Enough(req, |g.rx|) || |g.rx| == limit)
    decreases |turns|
  {
    hide Enough, More, Await, InRing, Arrived, Delivers;
    DeliversRest(turns, s);
    AwaitTurn(req, limit, [], turns);
    var q := turns[0].arrived;
    InRingAlone(q);
    var rest := Arrived(turns[1..]);
    if q == [] {
      assert s == rest by { assert [] + rest == rest; }
      if turns[1..] == [] {
        AwaitTurn(req, limit, [], turns[1..]);
      } else {
        AwaitGathers(req, limit, turns[1..], rest);
      }
    } else {
      assert [q[0]] + (q[1..] + rest) == s;
      MoreGathers(req, limit, [q[0]], q[1..], turns[1..]);
    }
  }

  lemma InRingAlone(q: seq<byte>)
    requires |q| <= RxRing.ROOM
    ensures InRing([], q) == q
  {
    assert [] + q == q;
  }

  // --- When everything is gathered ---

  // No turn of the second loop ends with enough octets, had of them from before, while more are
  // still to arrive.
  predicate NoSplit(req: seq<byte>, had: nat, turns: seq<Turn>)
    decreases |turns|
  {
    turns == [] ||
    (var now := had + |turns[0].arrived|;
     (Enough(req, now) ==> Arrived(turns[1..]) == []) && NoSplit(req, now, turns[1..]))
  }

  // The same over both loops: the first turn that brings octets is counted with the one after it.
  predicate Unsplit(req: seq<byte>, turns: seq<Turn>)
    decreases |turns|
  {
    if turns == [] then true
    else if turns[0].arrived == [] then Unsplit(req, turns[1..])
    else NoSplit(req, |turns[0].arrived|, turns[1..])
  }

  lemma {:induction false} NothingToSplit(req: seq<byte>, had: nat, turns: seq<Turn>)
    requires Arrived(turns) == []
    ensures NoSplit(req, had, turns)
    decreases |turns|
  {
    hide Enough;
    if turns != [] {
      NothingToSplit(req, had + |turns[0].arrived|, turns[1..]);
    }
  }

  lemma {:induction false} MoreWholeIff(req: seq<byte>, limit: nat, rx: seq<byte>, unread: seq<byte>, turns: seq<Turn>)
    requires Undisturbed(turns) && turns != []
    requires |rx| + |unread| + |Arrived(turns)| <= limit <= RX_MAX
    ensures More(req, limit, rx, unread, turns).rx == rx + (unread + Arrived(turns))
            <==> NoSplit(req, |rx| + |unread|, turns)
    decreases |turns|
  {
    hide Taken, InRing, Enough, Arrived, More, NoSplit;
    MoreTurn(req, limit, rx, unread, turns);
    ArrivedFirst(turns);
    ArrivedFirst(turns[1..]);
    var arrived, rest := turns[0].arrived, Arrived(turns[1..]);
    var rx' := rx + (unread + arrived);
    Regroup(rx, unread, arrived, rest);
    SplitFirst(req, |rx| + |unread|, turns);
    if |rx| >= limit {
      NothingToSplit(req, |rx| + |unread|, turns);
    } else {
      TakesAll(limit, rx, unread, arrived);
      assert turns[0] in turns;
      if Enough(req, |rx'|) {
        if rest == [] { NothingToSplit(req, |rx'|, turns[1..]); }
      } else if turns[1..] == [] {
        MoreTurn(req, limit, rx', [], turns[1..]);
        NothingToSplit(req, |rx'|, turns[1..]);
      } else {
        MoreWholeIff(req, limit, rx', [], turns[1..]);
      }
    }
  }

  lemma SplitFirst(req: seq<byte>, had: nat, turns: seq<Turn>)
    requires turns != []
    ensures var now := had + |turns[0].arrived|;
            NoSplit(req, had, turns) <==>
            (Enough(req, now) ==> Arrived(turns[1..]) == []) && NoSplit(req, now, turns[1..])
  {}

  lemma Regroup(rx: seq<byte>, unread: seq<byte>, arrived: seq<byte>, rest: seq<byte>)
    ensures rx + (unread + (arrived + rest)) == rx + (unread + arrived) + rest
    ensures rx + (unread + arrived) + ([] + rest) == rx + (unread + arrived) + rest
    ensures rx + (unread + arrived) + rest == rx + (unread + arrived) <==> rest == []
    ensures rx + (unread + arrived) + rest == rx <==> unread + arrived + rest == []
  {
    assert unread + (arrived + rest) == unread + arrived + rest;
    assert |rx + (unread + arrived) + rest| == |rx| + |unread| + |arrived| + |rest|;
    assert [] + rest == rest;
  }

  /** Everything that arrives is gathered exactly when it fits the buffer and the turn in which the
      loops have counted enough octets is one after which no more arrive. */
  lemma {:induction false} AwaitWholeIff(req: seq<byte>, limit: nat, turns: seq<Turn>, s: seq<byte>)
    requires Delivers(turns, s) && 1 <= limit <= RX_MAX
    ensures Await(req, limit, [], turns).rx == s <==> |s| <= limit && Unsplit(req, turns)
    decreases |turns|
  {
    hide Enough, More, Await, InRing, Arrived, Delivers, NoSplit;
    if |s| <= limit {
      DeliversRest(turns, s);
      AwaitTurn(req, limit, [], turns);
      var q := turns[0].arrived;
      InRingAlone(q);
      var rest := Arrived(turns[1..]);
      if q == [] {
        assert s == rest by { assert [] + rest == rest; }
        if turns[1..] == [] {
          AwaitTurn(req, limit, [], turns[1..]);
        } else {
          AwaitWholeIff(req, limit, turns[1..], rest);
        }
      } else {
        assert [q[0]] + (q[1..] + rest) == s;
        MoreWholeIff(req, limit, [q[0]], q[1..], turns[1..]);
      }
    }
  }

  // --- Replies and exceptions behind an echo ---

  /** A silent line is a timeout. */
  lemma SilenceTimesOut(req: seq<byte>, cap: nat, turns: seq<Turn>)
    requires |req| >= 1 && cap >= 1 && Delivers(turns, [])
    ensures Outcome(req, cap, [], turns) == Reply(-116, [])
  {
    hide Await, Delivers;
    AwaitGathers(req, Limit(cap), turns, []);
  }

  /** A reply of the predicted length reaches the caller octet for octet, however the line spreads
      it over the turns. */
  lemma ReplyDelivered(req: seq<byte>, cap: nat, turns: seq<Turn>, reply: seq<byte>)
    requires Expected(req) == |reply| <= cap && ReplyAt(req, reply, 0) && Delivers(turns, reply)
    ensures Outcome(req, cap, [], turns) == Reply(0, reply)
  {
    hide Await, Align, LastReply, Expected, Delivers, ReplyAt;
    AwaitGathers(req, Limit(cap), turns, reply);
    assert Await(req, Limit(cap), [], turns).rx == reply;
    EchoStripped(req, [], reply);
    assert [] + reply == reply;
  }

  /** So every reply of the application protocol to a legal read of bits or registers or to a write
      reaches the caller. */
  lemma ProtocolReplyDelivered(req: seq<byte>, turns: seq<Turn>, data: seq<byte>, crc: seq<byte>)
    requires |req| >= 8 && |crc| == 2 && |data| < 256 && req[1] in {1, 2, 3, 4, 5, 6, 16}
    requires req[1] <= 2 ==> 1 <= Be16(req[4], req[5]) <= 2000 && 8 * |data| - 8 < Be16(req[4], req[5]) <= 8 * |data|
    requires 3 <= req[1] <= 4 ==> 1 <= Be16(req[4], req[5]) <= 125 && |data| == 2 * Be16(req[4], req[5])
    requires req[1] > 4 ==> |data| == 4
    requires Delivers(turns, [req[0], req[1]] + (if req[1] <= 4 then [|data|] else []) + data + crc)
    ensures Outcome(req, 256, [], turns) ==
            Reply(0, [req[0], req[1]] + (if req[1] <= 4 then [|data|] else []) + data + crc)
  {
    hide Outcome, Delivers, Expected;
    var reply := [req[0], req[1]] + (if req[1] <= 4 then [|data|] else []) + data + crc;
    if req[1] <= 4 {
      PredictionIsReplyLength(req, data, crc);
      assert reply == ReadReply(req[0], req[1], data, crc);
    } else {
      PredictionIsWriteReplyLength(req, data, crc);
      assert reply == WriteReply(req[0], req[1], data, crc) by { assert [req[0], req[1]] + [] == [req[0], req[1]]; }
    }
    ReplyDelivered(req, 256, turns, reply);
  }

  /** Behind octets of any kind, at most a request's worth, the reply comes out when everything is
      gathered; otherwise the caller is handed as many octets that start before the reply. */
  lemma ReplyBehindEcho(req: seq<byte>, cap: nat, turns: seq<Turn>, echo: seq<byte>, reply: seq<byte>)
    requires Expected(req) == |reply| <= cap && ReplyAt(req, reply, 0)
    requires |echo| <= RX_MAX && Delivers(turns, echo + reply)
    ensures if |echo + reply| <= Limit(cap) && Unsplit(req, turns) then Outcome(req, cap, [], turns) == Reply(0, reply)
            else
              var r := Align(req, Await(req, Limit(cap), [], turns).rx);
              && r.Slice? && r.at < |echo| && r.count == |reply|
              && Outcome(req, cap, [], turns) == Reply(0, (echo + reply)[r.at..r.at + |reply|])
  {
    hide Await, Align, Expected, Delivers, ReplyAt, Unsplit;
    var s := echo + reply;
    AwaitGathers(req, Limit(cap), turns, s);
    AwaitWholeIff(req, Limit(cap), turns, s);
    var rx := Await(req, Limit(cap), [], turns).rx;
    if rx == s {
      EchoStripped(req, echo, reply);
    } else {
      assert |rx| >= |reply|;
      PredictedCut(req, rx);
      var r := Align(req, rx);
      assert rx[r.at..r.at + r.count] == s[r.at..r.at + r.count];
    }
  }

  // What comes out of fewer octets than were sent lies before the last ones.
  lemma PredictedCut(req: seq<byte>, rx: seq<byte>)
    requires Expected(req) != UNKNOWN && |rx| >= Expected(req)
    ensures var r := Align(req, rx);
            r.Slice? && r.count == Expected(req) && r.at + r.count <= |rx|
  {}

  /** One register request for two registers whose echo, an octet shorter than the reply, comes with
      one octet of it: eight echoed octets are taken for registers. */
  lemma ShortEchoSpoilsReply(req: seq<byte>, data: seq<byte>)
    requires |req| == 8 && req[1..6] == [3, 0, 0, 0, 2] && |data| == 8
    ensures var quiet := Turn(false, []);
            var turns := [Turn(false, req), quiet, Turn(false, [req[0]]), Turn(false, data), quiet];
            Expected(req) == 1 + |data| && Outcome(req, 256, [], turns) == Reply(0, req + [req[0]])
  {
    hide Align, InRing, Taken;
    var quiet := Turn(false, []);
    var (t3, t4) := (Turn(false, [req[0]]), Turn(false, data));
    var turns := [Turn(false, req), quiet, t3, t4, quiet];
    assert req[1] == req[1..6][0] && req[4] == req[1..6][3] && req[5] == req[1..6][4];
    AwaitTurn(req, 256, [], turns);
    InRingAlone(req);
    assert turns[1..] == [quiet, t3, t4, quiet];
    MoreTurn(req, 256, [req[0]], req[1..], [quiet, t3, t4, quiet]);
    TakesAll(256, [req[0]], req[1..], []);
    assert [req[0]] + (req[1..] + []) == req;
    MoreTurn(req, 256, req, [], [t3, t4, quiet]);
    TakesAll(256, req, [], [req[0]]);
    var rx := req + [req[0]];
    assert req + ([] + [req[0]]) == rx;
    PredictedCut(req, rx);
    assert rx[0..9] == rx;
  }

  /** Where a length is predicted nothing shorter is ever delivered, so no exception is, whatever
      the line does. */
  lemma OnlyPredictedLengths(req: seq<byte>, cap: nat, unread: seq<byte>, turns: seq<Turn>)
    requires |req| >= 1 && cap >= 1 && Expected(req) != UNKNOWN
    ensures var out := Outcome(req, cap, unread, turns);
            out.ret == 0 ==> |out.resp| == Expected(req) > 5
  {
    hide Await, Align, Expected;
    var rx := Await(req, Limit(cap), unread, turns).rx;
    SucceedsIff(req, rx);
    if |rx| >= Expected(req) { PredictedCut(req, rx); }
  }

  /** Behind octets of any kind, at most a request's worth, a five-octet exception is cut out
      exactly when no length is predicted and everything is gathered. Without a prediction the
      caller is otherwise handed a success that starts before the exception. */
  lemma ExceptionBehindEcho(req: seq<byte>, cap: nat, turns: seq<Turn>, echo: seq<byte>, reply: seq<byte>)
    requires |req| >= 1 && cap >= 5 && |reply| == 5 && reply[0] == req[0] && reply[1] >= 0x80
    requires |echo| <= RX_MAX && Delivers(turns, echo + reply)
    ensures var r := Align(req, Await(req, Limit(cap), [], turns).rx);
            var whole := |echo + reply| <= Limit(cap) && Unsplit(req, turns);
            && (r == Slice(|echo|, 5) <==> Expected(req) == UNKNOWN && whole)
            && (r == Slice(|echo|, 5) ==> Outcome(req, cap, [], turns) == Reply(0, reply))
            && (Expected(req) == UNKNOWN && !whole ==>
                  && r.Slice? && r.at < |echo| && r.at + r.count <= |echo + reply|
                  && Outcome(req, cap, [], turns) == Reply(0, (echo + reply)[r.at..r.at + r.count]))
  {
    hide Await, Align, Expected, Delivers, Unsplit;
    var s := echo + reply;
    AwaitGathers(req, Limit(cap), turns, s);
    AwaitWholeIff(req, Limit(cap), turns, s);
    var rx := Await(req, Limit(cap), [], turns).rx;
    if Expected(req) != UNKNOWN {
      if |rx| >= Expected(req) { PredictedCut(req, rx); } else { SucceedsIff(req, rx); }
    } else {
      assert |rx| >= 5;
      UnpredictedCut(req, rx);
      if rx == s {
        ExceptionCut(req, echo, reply);
      }
      var r := Align(req, rx);
      assert rx[r.at..r.at + r.count] == s[r.at..r.at + r.count];
    }
  }

  lemma UnpredictedCut(req: seq<byte>, rx: seq<byte>)
    requires |req| >= 1 && Expected(req) == UNKNOWN && |rx| >= 5
    ensures var r := Align(req, rx);
            r.Slice? && r.at + r.count <= |rx| && r.at + 5 <= |rx|
  {}

  lemma ExceptionCut(req: seq<byte>, echo: seq<byte>, reply: seq<byte>)
    requires |req| >= 1 && |reply| == 5 && reply[0] == req[0] && reply[1] >= 0x80 && Expected(req) == UNKNOWN
    ensures Align(req, echo + reply) == Slice(|echo|, 5) && (echo + reply)[|echo|..|echo| + 5] == reply
  {
    assert ExceptionAt(req, echo + reply, |echo|);
  }

  /** Without a prediction the loops stop at five octets: what arrives is delivered whole exactly
      when it has two octets and fits the buffer, five of them end a turn only where nothing more
      follows, and, if it is longer, nothing in it looks like an exception. */
  lemma UnpredictedWholeIff(req: seq<byte>, cap: nat, turns: seq<Turn>, s: seq<byte>)
    requires |req| >= 1 && cap >= 1 && Expected(req) == UNKNOWN && Delivers(turns, s)
    ensures Outcome(req, cap, [], turns) == Reply(0, s) <==>
            && 2 <= |s| <= Limit(cap) && Unsplit(req, turns)
            && (|s| > 5 ==> forall i :: 0 <= i <= |s| - 5 ==> !ExceptionAt(req, s, i))
  {
    hide Await, Expected, Delivers, Unsplit;
    AwaitWholeIff(req, Limit(cap), turns, s);
    if |s| <= Limit(cap) {
      AwaitGathers(req, Limit(cap), turns, s);
    }
    assert s[0..|s|] == s;
  }

  /** A five-octet exception on its own is delivered exactly when no length is predicted; otherwise
      the transaction waits for the deadline and fails. */
  lemma ExceptionDelivered(req: seq<byte>, cap: nat, turns: seq<Turn>, reply: seq<byte>)
    requires |req| >= 1 && cap >= 5 && |reply| == 5 && reply[0] == req[0] && reply[1] >= 0x80
    requires Delivers(turns, reply)
    ensures Outcome(req, cap, [], turns) == if Expected(req) == UNKNOWN then Reply(0, reply) else Reply(EIO, [])
  {
    hide Await, Align, LastReply, LastException, Expected, Delivers;
    AwaitGathers(req, Limit(cap), turns, reply);
    assert Await(req, Limit(cap), [], turns).rx == reply;
    LoneException(req, [], reply);
    assert [] + reply == reply;
  }

  /** A single write that fails behind its echo is always reported as done: eight octets are
      delivered. They are the echo itself exactly when the request's slave and function do not
      stand again in what was gathered; cut at the echo, that is always so. */
  lemma FailedWriteReportedDone(req: seq<byte>, cap: nat, turns: seq<Turn>, reply: seq<byte>)
    requires |req| == 8 && (req[1] == 0x05 || req[1] == 0x06) && cap >= 8
    requires |reply| == 5 && reply[0] == req[0] && reply[1] == req[1] + 0x80 && Delivers(turns, req + reply)
    ensures var n := |Await(req, Limit(cap), [], turns).rx|;
            var r := Align(req, Await(req, Limit(cap), [], turns).rx);
            && 8 <= n <= 13 && (n == 13 <==> cap >= 13 && Unsplit(req, turns))
            && r.Slice? && r.at + 8 <= n
            && Outcome(req, cap, [], turns) == Reply(0, (req + reply)[r.at..r.at + 8])
            && (r.at == 0 <==> forall i :: 1 <= i <= n - 8 ==> !ReplyAt(req, req + reply, i))
            && (r.at == 0 ==> Outcome(req, cap, [], turns) == Reply(0, req))
  {
    hide Await, Delivers, Unsplit, Align, LastReply;
    var s := req + reply;
    AwaitGathers(req, Limit(cap), turns, s);
    AwaitWholeIff(req, Limit(cap), turns, s);
    var rx := Await(req, Limit(cap), [], turns).rx;
    assert rx == s <==> |rx| == 13;
    WriteCut(req, rx, s);
    var r := Align(req, rx);
    assert rx == s[..|rx|];
    SliceOfPrefix(s, |rx|, r.at, r.at + 8);
    assert s[0..8] == req;
  }

  lemma WriteCut(req: seq<byte>, rx: seq<byte>, s: seq<byte>)
    requires |req| == 8 && (req[1] == 0x05 || req[1] == 0x06) && req <= s && rx <= s && 8 <= |rx| < 16
    ensures var r := Align(req, rx);
            && r.Slice? && r.count == 8 && r.at + 8 <= |rx|
            && (r.at == 0 <==> forall i :: 1 <= i <= |rx| - 8 ==> !ReplyAt(req, s, i))
  {
    assert ReplyAt(req, rx, 0);
    assert forall i :: 0 <= i <= |rx| - 8 ==> (ReplyAt(req, rx, i) <==> ReplyAt(req, s, i));
    var at := LastReply(req, rx, |rx| - 7);
    assert Align(req, rx) == Slice(if at >= 0 then at else 0, 8);
  }

  lemma {:induction false} MoreStops(req: seq<byte>, limit: nat, rx: seq<byte>, unread: seq<byte>,
                                     turns: seq<Turn>, later: seq<Turn>)
    requires |rx| < limit && !Enough(req, |rx|) && Enough(req, |More(req, limit, rx, unread, turns).rx|)
    ensures More(req, limit, rx, unread, turns + later) == More(req, limit, rx, unread, turns)
    decreases |turns|
  {
    hide Taken, InRing, Enough;
    MoreTurn(req, limit, rx, unread, turns);
    MoreTurn(req, limit, rx, unread, turns + later);
    if turns != [] {
      var (rx', left) := Taken(limit, rx, InRing(unread, turns[0].arrived));
      assert (turns + later)[1..] == turns[1..] + later;
      if !Enough(req, |rx'|) && !turns[0].aborted {
        MoreTurn(req, limit, rx', left, turns[1..]);
        if |rx'| < limit {
          MoreStops(req, limit, rx', left, turns[1..], later);
        }
      }
    }
  }

  lemma {:induction false} AwaitStops(req: seq<byte>, limit: nat, unread: seq<byte>, turns: seq<Turn>, later: seq<Turn>)
    requires limit >= 2 && Enough(req, |Await(req, limit, unread, turns).rx|)
    ensures Await(req, limit, unread, turns + later) == Await(req, limit, unread, turns)
    decreases |turns|
  {
    hide InRing, More, Expected;
    AwaitTurn(req, limit, unread, turns);
    AwaitTurn(req, limit, unread, turns + later);
    if turns != [] {
      assert (turns + later)[1..] == turns[1..] + later;
      var q := InRing(unread, turns[0].arrived);
      if !turns[0].aborted {
        if q == [] {
          AwaitStops(req, limit, q, turns[1..], later);
        } else {
          MoreStops(req, limit, [q[0]], q[1..], turns[1..], later);
        }
      }
    }
  }

  /** Octets that are enough by themselves and arrive a turn ahead are the answer: whatever follows
      and whenever, even an abort, the caller is handed a success made of them alone. */
  lemma EchoTakenForReply(req: seq<byte>, cap: nat, echo: seq<byte>, turns: seq<Turn>, later: seq<Turn>)
    returns (n: nat)
    requires |req| >= 1 && cap >= 1 && Enough(req, |echo|) && |echo| <= Limit(cap) && Delivers(turns, echo)
    ensures n <= |echo| && Enough(req, n)
    ensures Outcome(req, cap, [], turns + later) == RtuReply(req, echo[..n])
    ensures Outcome(req, cap, [], turns + later).ret == 0
  {
    hide Await, Align, Expected, Delivers;
    AwaitGathers(req, Limit(cap), turns, echo);
    var rx := Await(req, Limit(cap), [], turns).rx;
    n := |rx|;
    assert rx == echo[..n];
    AwaitStops(req, Limit(cap), [], turns, later);
    SucceedsIff(req, rx);
  }

  /** So the echo of a single write is its answer, whatever the slave makes of it. */
  lemma WriteEchoIsAnswer(req: seq<byte>, cap: nat, turns: seq<Turn>, later: seq<Turn>)
    requires |req| == 8 && (req[1] == 0x05 || req[1] == 0x06) && cap >= 8 && Delivers(turns, req)
    ensures Outcome(req, cap, [], turns + later) == Reply(0, req)
  {
    hide Outcome, Align, Delivers;
    var n := EchoTakenForReply(req, cap, req, turns, later);
    assert n == 8 && req[..8] == req;
    WriteCut(req, req, req);
    assert req[0..8] == req;
  }
}
