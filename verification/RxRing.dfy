/** The interrupt-filled receive ring of one UART port: 512 slots, one always free, the oldest
    octet dropped when a push meets a full ring. */
module RxRing {
  import opened Bytes

  const SLOTS: nat := 512
  const ROOM: nat := SLOTS - 1

  // --- The drop-oldest FIFO the ring refines ---

  // The newest n elements of s.
  function Newest(s: seq<byte>, n: nat): seq<byte> {
    if |s| <= n then s else s[|s| - n..]
  }

  datatype Op = Push(data: seq<byte>) | Pop | Reset

  // unread: what the next pops return; popped: everything returned so far.
  datatype Fifo = Fifo(unread: seq<byte>, popped: seq<byte>)

  function Step(f: Fifo, op: Op): Fifo {
    match op
    case Push(data) => f.(unread := Newest(f.unread + data, ROOM))
    case Pop => if f.unread == [] then f else Fifo(f.unread[1..], f.popped + [f.unread[0]])
    case Reset => f.(unread := [])
  }

  function Run(f: Fifo, ops: seq<Op>): Fifo
    decreases |ops|
  {
    if ops == [] then f else Run(Step(f, ops[0]), ops[1..])
  }

  function Pushed(ops: seq<Op>): seq<byte> {
    if ops == [] then []
    else (if ops[0].Push? then ops[0].data else []) + Pushed(ops[1..])
  }

  // No push that overflows and no reset that throws octets away.
  predicate NothingDropped(f: Fifo, ops: seq<Op>)
    decreases |ops|
  {
    ops == [] ||
    (&& (ops[0].Reset? ==> f.unread == [])
     && (ops[0].Push? ==> |f.unread| + |ops[0].data| <= ROOM)
     && NothingDropped(Step(f, ops[0]), ops[1..]))
  }

  /** How the interrupt routine cuts a burst into pushes does not matter. */
  lemma PushesMerge(f: Fifo, a: seq<byte>, b: seq<byte>)
    ensures Step(Step(f, Push(a)), Push(b)) == Step(f, Push(a + b))
  {
    assert f.unread + (a + b) == (f.unread + a) + b;
    NewestOfAppend(f.unread + a, b, ROOM);
  }

  lemma NewestOfAppend(s: seq<byte>, t: seq<byte>, n: nat)
    ensures Newest(Newest(s, n) + t, n) == Newest(s + t, n)
  {}

  /** Over any run, the octets read and still unread are as many as those pushed, and then are
      exactly those in order, if and only if no push overflowed the ring and no reset threw unread
      octets away; otherwise they are fewer. */
  lemma {:induction false} LosslessIff(f: Fifo, ops: seq<Op>)
    requires |f.unread| <= ROOM
    ensures var end := Run(f, ops);
            && |end.unread| <= ROOM
            && |end.popped + end.unread| <= |f.popped + f.unread + Pushed(ops)|
            && (end.popped + end.unread == f.popped + f.unread + Pushed(ops) <==> NothingDropped(f, ops))
            && (!NothingDropped(f, ops) ==> |end.popped + end.unread| < |f.popped + f.unread + Pushed(ops)|)
    decreases |ops|
  {
    if ops != [] {
      var g := Step(f, ops[0]);
      LosslessIff(g, ops[1..]);
      match ops[0]
      case Pop =>
        if f.unread != [] {
          assert g.popped + g.unread == f.popped + f.unread;
        }
        assert Pushed(ops) == Pushed(ops[1..]);
      case Push(data) =>
        assert f.popped + f.unread + Pushed(ops) == f.popped + (f.unread + data) + Pushed(ops[1..]);
      case Reset =>
        assert f.popped + f.unread + Pushed(ops) == f.popped + f.unread + Pushed(ops[1..]);
        assert f.unread == [] ==> g.popped + g.unread == f.popped + f.unread;
    } else {
      assert f.popped + f.unread + [] == f.popped + f.unread;
    }
  }

  // What was pushed since the last reset, behind what was there before.
  function SinceReset(before: seq<byte>, ops: seq<Op>): seq<byte>
    decreases |ops|
  {
    if ops == [] then before
    else
      SinceReset(match ops[0] case Push(data) => before + data case Pop => before case Reset => [], ops[1..])
  }

  predicate IsSuffix(s: seq<byte>, of: seq<byte>) {
    |s| <= |of| && s == of[|of| - |s|..]
  }

  /** Only the oldest octets are ever missing: over any run, what is unread is the end of what was
      pushed since the last reset. */
  lemma {:induction false} UnreadIsNewest(f: Fifo, before: seq<byte>, ops: seq<Op>)
    requires IsSuffix(f.unread, before)
    ensures IsSuffix(Run(f, ops).unread, SinceReset(before, ops))
    decreases |ops|
  {
    hide Newest;
    if ops != [] {
      match ops[0]
      case Push(data) =>
        NewestIs(f.unread + data);
        SuffixGrows(f.unread, before, data);
        UnreadIsNewest(Step(f, ops[0]), before + data, ops[1..]);
      case Pop => UnreadIsNewest(Step(f, ops[0]), before, ops[1..]);
      case Reset => UnreadIsNewest(Step(f, ops[0]), [], ops[1..]);
    }
  }

  lemma SuffixGrows(s: seq<byte>, of: seq<byte>, data: seq<byte>)
    requires IsSuffix(s, of)
    ensures forall t :: IsSuffix(t, s + data) ==> IsSuffix(t, of + data)
  {
    forall t | IsSuffix(t, s + data) ensures IsSuffix(t, of + data) {
      assert of == of[..|of| - |s|] + s;
    }
  }

  lemma NewestIs(s: seq<byte>)
    ensures var t := Newest(s, ROOM);
            && IsSuffix(t, s) && |t| == (if |s| <= 511 then |s| else 511)
            && forall i :: 0 <= i < |t| ==> t[i] == s[|s| - |t| + i]
  {}

  lemma NewestOfFew(s: seq<byte>)
    requires |s| <= ROOM
    ensures Newest(s, ROOM) == s
  {}

  // --- The ring itself ---

  function Next(i: nat): nat
    requires i < SLOTS
  {
    (i + 1) % SLOTS
  }

  lemma NextIs(i: nat)
    requires i < SLOTS
    ensures Next(i) == if i + 1 == SLOTS then 0 else i + 1
  {}

  // The unread octets of the slots, oldest first.
  ghost function Unread(slots: seq<byte>, head: nat, tail: nat): (s: seq<byte>)
    requires |slots| == SLOTS && head < SLOTS && tail < SLOTS
    ensures |s| <= ROOM && (s == [] <==> head == tail) && (|s| == ROOM <==> Next(head) == tail)
  {
    if tail <= head then slots[tail..head] else slots[tail..] + slots[..head]
  }

  lemma UnreadAfterTake(slots: seq<byte>, head: nat, tail: nat)
    requires |slots| == SLOTS && head < SLOTS && tail < SLOTS && head != tail
    ensures Unread(slots, head, tail)[0] == slots[tail]
    ensures Unread(slots, head, Next(tail)) == Unread(slots, head, tail)[1..]
  {
    hide Next;
    NextIs(tail);
    if head < tail && tail + 1 < SLOTS {
      assert slots[tail..][1..] == slots[tail + 1..];
    }
  }

  lemma UnreadAfterPut(slots: seq<byte>, head: nat, tail: nat, x: byte)
    requires |slots| == SLOTS && head < SLOTS && tail < SLOTS && Next(head) != tail
    ensures Unread(slots[head := x], Next(head), tail) == Unread(slots, head, tail) + [x]
  {
    hide Next;
    NextIs(head);
    var after := slots[head := x];
    if tail <= head {
      assert after[tail..head + 1] == slots[tail..head] + [x];
      if head + 1 == SLOTS {
        assert after[tail..] + after[..0] == after[tail..head + 1];
      }
    } else {
      assert after[tail..] == slots[tail..];
      assert after[..head + 1] == slots[..head] + [x];
    }
  }

  class Ring {
    const slots: array<byte>
    var head: nat
    var tail: nat

    ghost predicate Valid()
      reads this
    {
      slots.Length == SLOTS && head < SLOTS && tail < SLOTS
    }

    ghost function Contents(): (s: seq<byte>)
      requires Valid()
      reads this, slots
    {
      Unread(slots[..], head, tail)
    }

    constructor ()
      ensures Valid() && Contents() == [] && fresh(slots)
    {
      slots := new byte[SLOTS];
      head, tail := 0, 0;
    }

    method Reset()
      requires Valid()
      modifies this
      ensures Valid() && Contents() == []
    {
      head, tail := 0, 0;
    }

    // One turn of the push loop.
    method PushOne(x: byte)
      requires Valid()
      modifies this, slots
      ensures Valid() && Contents() == Newest(old(Contents()) + [x], ROOM)
    {
      hide Unread;
      var nh := Next(head);
      if nh == tail {
        UnreadAfterTake(slots[..], head, tail);
        tail := Next(tail);
      }
      UnreadAfterPut(slots[..], head, tail, x);
      slots[head] := x;
      head := nh;
    }

    method Push(data: seq<byte>)
      requires Valid()
      modifies this, slots
      ensures Valid() && Contents() == Newest(old(Contents()) + data, ROOM)
      ensures var all := old(Contents()) + data;
              && |Contents()| == (if |all| <= 511 then |all| else 511)
              && forall i :: 0 <= i < |Contents()| ==> Contents()[i] == all[|all| - |Contents()| + i]
    {
      hide Unread, Newest, IsSuffix;
      ghost var was := Contents();
      NewestOfFew(was);
      assert was + data[..0] == was;
      for i := 0 to |data|
        invariant Valid() && Contents() == Newest(was + data[..i], ROOM)
      {
        PushOne(data[i]);
        NewestOfAppend(was + data[..i], [data[i]], ROOM);
        assert (was + data[..i]) + [data[i]] == was + data[..i + 1];
      }
      assert data[..|data|] == data;
      NewestIs(was + data);
    }

    // -EAGAIN is None of the octet: got is false and out is not written.
    method Pop() returns (got: bool, out: byte)
      requires Valid()
      modifies this`tail
      ensures Valid()
      ensures got <==> old(Contents()) != []
      ensures got ==> out == old(Contents())[0] && Contents() == old(Contents())[1..]
      ensures !got ==> Contents() == old(Contents())
    {
      if head == tail {
        return false, 0;
      }
      UnreadAfterTake(slots[..], head, tail);
      out := slots[tail];
      tail := Next(tail);
      got := true;
    }

    /** Any run of the interrupt routine and its readers, interleaved under the lock, does to the
        ring what it does to the FIFO, and returns what the pops returned. */
    method Perform(ops: seq<Op>) returns (popped: seq<byte>)
      requires Valid()
      modifies this, slots
      ensures Valid() && Fifo(Contents(), popped) == Run(Fifo(old(Contents()), []), ops)
    {
      hide Unread, Newest;
      popped := [];
      assert ops[0..] == ops;
      for i := 0 to |ops|
        invariant Valid()
        invariant Run(Fifo(Contents(), popped), ops[i..]) == Run(Fifo(old(Contents()), []), ops)
      {
        assert ops[i..][0] == ops[i] && ops[i..][1..] == ops[i + 1..];
        match ops[i]
        case Push(data) => Push(data);
        case Pop =>
          var got, out := Pop();
          if got { popped := popped + [out]; }
        case Reset => Reset();
      }
    }
  }
}
