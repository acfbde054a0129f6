/** The two framings of the TCP stream, as functions of the octets received.
    Compact (handshake): STX Type Seq Body ETX, where SYNC has a fixed 14-octet body.
    Session: STX Len(2, big endian) Type Seq Body ETX. */
module Framing {
  import opened Bytes

  const STX: byte := 0x55
  const ETX: byte := 0x03
  const SYNC: byte := 0x01
  const MODBUS_REQ: byte := 0x02
  const SYNC_BODY: nat := 14
  const SYNC_FRAME: nat := 18

  datatype Kind = Compact | Session

  datatype Frame = Frame(msgType: byte, seqNo: byte, body: seq<byte>)

  // What the two frame_info functions report: 0, -1 with its reason, or 1 with the length.
  datatype Info = Short | Bad(why: nat) | Complete(need: nat)

  // Octets before and after the body.
  function Header(k: Kind): nat { if k == Compact then 3 else 5 }

  // The fewest octets each drain loop looks at.
  function Least(k: Kind): nat { if k == Compact then 3 else 6 }

  // gw_srv_rx_frame_info, from position i of the search for ETX
  function ScanEtx(maxBody: nat, p: seq<byte>, i: nat): Info
    requires 3 <= i <= |p|
    decreases |p| - i
  {
    if i == |p| then Short
    else if p[i] == ETX then (if i - 3 > maxBody then Bad(3) else Complete(i + 1))
    else if i - 3 >= maxBody then Bad(3)
    else ScanEtx(maxBody, p, i + 1)
  }

  function CompactInfo(maxBody: nat, p: seq<byte>): Info {
    if |p| < 3 then Short
    else if p[0] != STX then Bad(2)
    else if p[1] == SYNC then
      if |p| < SYNC_FRAME then Short
      else if p[SYNC_FRAME - 1] != ETX then Bad(5)
      else Complete(SYNC_FRAME)
    else ScanEtx(maxBody, p, 3)
  }

  // gw_srv_sess_rx_frame_info
  function SessionInfo(maxBody: nat, p: seq<byte>): Info {
    if |p| < 6 then Short
    else if p[0] != STX then Bad(2)
    else
      var len := Be16(p[1], p[2]);
      if len > maxBody then Bad(3)
      else if |p| < 5 + len + 1 then Short
      else if p[5 + len] != ETX then Bad(5)
      else Complete(5 + len + 1)
  }

  function InfoOf(k: Kind, maxBody: nat, p: seq<byte>): Info {
    if k == Compact then CompactInfo(maxBody, p) else SessionInfo(maxBody, p)
  }

  // The frame in the first need octets.
  function Extract(k: Kind, p: seq<byte>, need: nat): Frame
    requires Header(k) < need <= |p|
  {
    Frame(p[Header(k) - 2], p[Header(k) - 1], p[Header(k)..need - 1])
  }

  // --- Draining the buffer ---

  function FirstStx(s: seq<byte>): (i: nat)
    ensures i <= |s| && (i < |s| ==> s[i] == STX) && STX !in s[..i]
  {
    if s == [] then 0 else if s[0] == STX then 0 else
      assert s[..1 + FirstStx(s[1..])] == [s[0]] + s[1..][..FirstStx(s[1..])];
      1 + FirstStx(s[1..])
  }

  function Trim(s: seq<byte>): (t: seq<byte>)
    ensures |t| <= |s| && (t != [] ==> t[0] == STX)
  {
    s[FirstStx(s)..]
  }

  // The input is cut into pieces: octets thrown away and octets delivered as a frame.
  datatype Piece = Skipped(octets: seq<byte>) | Delivered(octets: seq<byte>, frame: Frame)
  datatype Drained = Drained(pieces: seq<Piece>, rest: seq<byte>)

  lemma {:induction false} InfoBounds(k: Kind, maxBody: nat, p: seq<byte>)
    ensures InfoOf(k, maxBody, p).Complete? ==> Header(k) < InfoOf(k, maxBody, p).need <= |p|
    ensures InfoOf(k, maxBody, p).Complete? ==> p[0] == STX && p[InfoOf(k, maxBody, p).need - 1] == ETX
  {
    if k == Compact && |p| >= 3 {
      ScanBounds(maxBody, p, 3);
    }
  }

  lemma {:induction false} ScanBounds(maxBody: nat, p: seq<byte>, i: nat)
    requires 3 <= i <= |p|
    ensures match ScanEtx(maxBody, p, i)
            case Complete(need) => i < need <= |p| && p[need - 1] == ETX && ETX !in p[i..need - 1]
                                   && (i <= maxBody + 3 ==> need - 4 <= maxBody)
            case Short => ETX !in p[i..] && |p| <= (if i < maxBody + 3 then maxBody + 3 else i)
            case Bad(why) => i < |p| && maxBody + 3 < |p|
    decreases |p| - i
  {
    if i < |p| && p[i] != ETX && i - 3 < maxBody {
      ScanBounds(maxBody, p, i + 1);
      match ScanEtx(maxBody, p, i)
      case Complete(need) => assert p[i..need - 1] == [p[i]] + p[i + 1..need - 1];
      case Short => assert p[i..] == [p[i]] + p[i + 1..];
      case Bad(_) =>
    }
  }

  /** gw_process_frames_handshake and the loop of gw_handle_client, as far as the buffer goes. */
  function Drain(k: Kind, maxBody: nat, s: seq<byte>): Drained
    decreases |s|
  {
    if |s| < Least(k) then Drained([], s)
    else
      var i := FirstStx(s);
      var t := s[i..];
      var skip := if i > 0 then [Skipped(s[..i])] else [];
      if |t| < Least(k) then Drained(skip, t)
      else
        InfoBounds(k, maxBody, t);
        match InfoOf(k, maxBody, t)
        case Short => Drained(skip, t)
        case Bad(_) =>
          var d := Drain(k, maxBody, t[1..]);
          Drained(skip + [Skipped(t[..1])] + d.pieces, d.rest)
        case Complete(need) =>
          var d := Drain(k, maxBody, t[need..]);
          Drained(skip + [Delivered(t[..need], Extract(k, t, need))] + d.pieces, d.rest)
  }

  function Frames(pieces: seq<Piece>): seq<Frame> {
    if pieces == [] then []
    else (if pieces[0].Delivered? then [pieces[0].frame] else []) + Frames(pieces[1..])
  }

  function Octets(pieces: seq<Piece>): seq<byte> {
    if pieces == [] then [] else pieces[0].octets + Octets(pieces[1..])
  }

  function Parsed(k: Kind, maxBody: nat, s: seq<byte>): seq<Frame> {
    Frames(Drain(k, maxBody, s).pieces)
  }

  function Rest(k: Kind, maxBody: nat, s: seq<byte>): seq<byte> {
    Drain(k, maxBody, s).rest
  }

  lemma {:induction false} PiecesAppend(a: seq<Piece>, b: seq<Piece>)
    ensures Frames(a + b) == Frames(a) + Frames(b)
    ensures Octets(a + b) == Octets(a) + Octets(b)
  {
    if a == [] {
      assert a + b == b;
    } else {
      assert (a + b)[0] == a[0] && (a + b)[1..] == a[1..] + b;
      PiecesAppend(a[1..], b);
    }
  }

  // One turn of the drain loop, without the pieces.
  lemma DrainStep(k: Kind, maxBody: nat, s: seq<byte>)
    requires |s| >= Least(k)
    ensures var t := Trim(s);
            if |t| < Least(k) || InfoOf(k, maxBody, t).Short? then
              Parsed(k, maxBody, s) == [] && Rest(k, maxBody, s) == t
            else if InfoOf(k, maxBody, t).Bad? then
              Parsed(k, maxBody, s) == Parsed(k, maxBody, t[1..]) && Rest(k, maxBody, s) == Rest(k, maxBody, t[1..])
            else
              var need := InfoOf(k, maxBody, t).need;
              && Header(k) < need <= |t|
              && Parsed(k, maxBody, s) == [Extract(k, t, need)] + Parsed(k, maxBody, t[need..])
              && Rest(k, maxBody, s) == Rest(k, maxBody, t[need..])
  {
    var i := FirstStx(s);
    var t := s[i..];
    var skip := if i > 0 then [Skipped(s[..i])] else [];
    assert Frames(skip) == [];
    if |t| >= Least(k) {
      InfoBounds(k, maxBody, t);
      match InfoOf(k, maxBody, t)
      case Short =>
      case Bad(_) =>
        PiecesAppend(skip + [Skipped(t[..1])], Drain(k, maxBody, t[1..]).pieces);
        PiecesAppend(skip, [Skipped(t[..1])]);
      case Complete(need) =>
        var p := [Delivered(t[..need], Extract(k, t, need))];
        PiecesAppend(skip + p, Drain(k, maxBody, t[need..]).pieces);
        PiecesAppend(skip, p);
        assert Frames(p) == [Extract(k, t, need)];
    }
  }

  // --- Conservation and faithfulness ---

  // The length field is 16 bits wide.
  function Print(k: Kind, f: Frame): seq<byte> {
    if k == Compact then [STX, f.msgType, f.seqNo] + f.body + [ETX]
    else [STX] + PutBe16(|f.body| % 0x1_0000) + [f.msgType, f.seqNo] + f.body + [ETX]
  }

  /** Octets in are octets skipped, delivered and kept, in order and without a gap. */
  lemma {:induction false} Conservation(k: Kind, maxBody: nat, s: seq<byte>)
    ensures Octets(Drain(k, maxBody, s).pieces) + Rest(k, maxBody, s) == s
    decreases |s|
  {
    hide InfoOf, FirstStx, Extract, Octets, Frames;
    if |s| < Least(k) {
      OctetsOfNone();
    } else {
      var i := FirstStx(s);
      var t := s[i..];
      var skip := if i > 0 then [Skipped(s[..i])] else [];
      OctetsOfNone();
      assert Octets(skip) == s[..i] by { if i > 0 { OctetsOfOne(skip[0]); } }
      assert s == s[..i] + t;
      if |t| >= Least(k) {
        InfoBounds(k, maxBody, t);
        match InfoOf(k, maxBody, t)
        case Short =>
        case Bad(_) =>
          Conservation(k, maxBody, t[1..]);
          PiecesInOrder(s, t, skip, Skipped(t[..1]), 1, Drain(k, maxBody, t[1..]));
        case Complete(need) =>
          Conservation(k, maxBody, t[need..]);
          PiecesInOrder(s, t, skip, Delivered(t[..need], Extract(k, t, need)), need, Drain(k, maxBody, t[need..]));
      }
    }
  }

  // A delivered piece is, octet for octet, the printed form of its frame.
  predicate Faithful(k: Kind, maxBody: nat, p: Piece) {
    p.Delivered? ==> (k == Session ==> |p.frame.body| <= maxBody) && Print(k, p.frame) == p.octets
  }

  lemma {:induction false} DeliveredAsPrinted(k: Kind, maxBody: nat, s: seq<byte>)
    requires maxBody < 0x1_0000
    ensures forall p :: p in Drain(k, maxBody, s).pieces ==> Faithful(k, maxBody, p)
    decreases |s|
  {
    hide InfoOf, FirstStx, Extract, Print;
    if |s| >= Least(k) {
      var t := s[FirstStx(s)..];
      if |t| >= Least(k) {
        InfoBounds(k, maxBody, t);
        match InfoOf(k, maxBody, t)
        case Short =>
        case Bad(_) =>
          DeliveredAsPrinted(k, maxBody, t[1..]);
        case Complete(need) =>
          DeliveredAsPrinted(k, maxBody, t[need..]);
          PrintOfExtract(k, maxBody, t);
      }
    }
  }

  lemma OctetsOfNone()
    ensures Octets([]) == []
  {}

  lemma OctetsOfOne(p: Piece)
    ensures Octets([p]) == p.octets
  {
    assert Octets([p]) == p.octets + Octets([]);
  }

  lemma PiecesInOrder(s: seq<byte>, t: seq<byte>, skip: seq<Piece>, p: Piece, n: nat, d: Drained)
    requires n <= |t| && p.octets == t[..n]
    requires s == Octets(skip) + t && Octets(d.pieces) + d.rest == t[n..]
    ensures Octets(skip + [p] + d.pieces) + d.rest == s
  {
    hide Octets, Frames;
    PiecesAppend(skip + [p], d.pieces);
    PiecesAppend(skip, [p]);
    OctetsOfOne(p);
    SplitAt(t, n);
    ConcatAssociates(Octets(skip) + p.octets, Octets(d.pieces), d.rest);
    ConcatAssociates(Octets(skip), p.octets, t[n..]);
  }

  lemma PrintOfExtract(k: Kind, maxBody: nat, t: seq<byte>)
    requires maxBody < 0x1_0000 && InfoOf(k, maxBody, t).Complete?
    ensures var need := InfoOf(k, maxBody, t).need;
            && Header(k) < need <= |t|
            && (k == Session ==> |Extract(k, t, need).body| <= maxBody)
            && Print(k, Extract(k, t, need)) == t[..need]
  {
    hide PutBe16, Be16, ScanEtx;
    InfoBounds(k, maxBody, t);
    var need := InfoOf(k, maxBody, t).need;
    Middle(t, Header(k), need);
    if k == Session {
      PutOfBe16(t[1], t[2]);
      assert t[..5] == [t[0]] + [t[1], t[2]] + [t[3], t[4]];
      assert need == 5 + Be16(t[1], t[2]) + 1;
    } else {
      assert t[..3] == [t[0], t[1], t[2]];
    }
  }

  lemma Middle(t: seq<byte>, h: nat, need: nat)
    requires h < need <= |t|
    ensures t[..need] == t[..h] + t[h..need - 1] + [t[need - 1]]
  {}

  // --- Independence of the cut into TCP segments ---

  lemma {:induction false} ScanStable(maxBody: nat, p: seq<byte>, i: nat, more: seq<byte>)
    requires 3 <= i <= |p| && !ScanEtx(maxBody, p, i).Short?
    ensures ScanEtx(maxBody, p + more, i) == ScanEtx(maxBody, p, i)
    decreases |p| - i
  {
    if i < |p| && p[i] != ETX && i - 3 < maxBody {
      ScanStable(maxBody, p, i + 1, more);
    }
  }

  /** A verdict other than "too short" never changes when more octets arrive. */
  lemma VerdictStable(k: Kind, maxBody: nat, p: seq<byte>, more: seq<byte>)
    requires !InfoOf(k, maxBody, p).Short?
    ensures InfoOf(k, maxBody, p + more) == InfoOf(k, maxBody, p)
  {
    if k == Compact && |p| >= 3 && p[0] == STX && p[1] != SYNC {
      ScanStable(maxBody, p, 3, more);
    }
  }

  lemma {:induction false} TrimOfJunk(junk: seq<byte>, s: seq<byte>)
    requires STX !in junk
    ensures Trim(junk + s) == Trim(s)
  {
    if junk == [] {
      assert junk + s == s;
    } else {
      assert (junk + s)[1..] == junk[1..] + s;
      TrimOfJunk(junk[1..], s);
      assert junk[0] in junk;
    }
  }

  lemma TrimFacts(a: seq<byte>, b: seq<byte>)
    ensures Trim(Trim(a)) == Trim(a)
    ensures Trim(a) != [] ==> Trim(a + b) == Trim(a) + b
    ensures Trim(a) == [] ==> STX !in a && Trim(a + b) == Trim(b)
  {
    var i := FirstStx(a);
    assert a == a[..i] + Trim(a);
    if Trim(a) == [] {
      assert a == a[..i];
      TrimOfJunk(a, b);
    } else {
      assert a + b == a[..i] + (Trim(a) + b);
      TrimOfJunk(a[..i], Trim(a) + b);
      assert (Trim(a) + b)[0] == STX && Trim(a)[0] == STX;
    }
  }

  // Same frames, and leftovers that differ at most in octets no frame can start with.
  ghost predicate SameOutcome(k: Kind, maxBody: nat, x: seq<byte>, y: seq<byte>) {
    Parsed(k, maxBody, x) == Parsed(k, maxBody, y) && Trim(Rest(k, maxBody, x)) == Trim(Rest(k, maxBody, y))
  }

  /** Octets free of STX in front of a stream never cost a frame. */
  lemma JunkInFront(k: Kind, maxBody: nat, junk: seq<byte>, s: seq<byte>)
    requires STX !in junk
    ensures SameOutcome(k, maxBody, junk + s, s)
  {
    TrimOfJunk(junk, s);
    TrimFacts(s, []);
    if |junk + s| >= Least(k) { DrainStep(k, maxBody, junk + s); }
    if |s| >= Least(k) { DrainStep(k, maxBody, s); }
  }

  /** Parsing a ++ b delivers what parsing a delivers, then what parsing the leftover of a
      followed by b delivers. */
  lemma {:induction false} ChunkIndependence(k: Kind, maxBody: nat, a: seq<byte>, b: seq<byte>)
    ensures Parsed(k, maxBody, a + b) == Parsed(k, maxBody, a) + Parsed(k, maxBody, Rest(k, maxBody, a) + b)
    ensures Trim(Rest(k, maxBody, a + b)) == Trim(Rest(k, maxBody, Rest(k, maxBody, a) + b))
    decreases |a|
  {
    hide InfoOf, FirstStx, Drain, Trim, Extract;
    if |a| < Least(k) {
      SmallDrain(k, maxBody, a);
    } else {
      var t := Trim(a);
      TrimFacts(a, b);
      DrainStep(k, maxBody, a);
      DrainStep(k, maxBody, a + b);
      if t == [] {
        SmallDrain(k, maxBody, []);
        assert [] + b == b;
        JunkInFront(k, maxBody, a, b);
      } else if |t| < Least(k) || InfoOf(k, maxBody, t).Short? {
        JunkBeforeTrim(k, maxBody, a, b);
      } else {
        VerdictStable(k, maxBody, t, b);
        ChunkAfterStep(k, maxBody, a, b);
      }
    }
  }

  lemma SmallDrain(k: Kind, maxBody: nat, a: seq<byte>)
    requires |a| < Least(k)
    ensures Parsed(k, maxBody, a) == [] && Rest(k, maxBody, a) == a
  {}

  lemma JunkBeforeTrim(k: Kind, maxBody: nat, a: seq<byte>, b: seq<byte>)
    ensures SameOutcome(k, maxBody, a + b, Trim(a) + b)
  {
    var i := FirstStx(a);
    assert a + b == a[..i] + (Trim(a) + b);
    JunkInFront(k, maxBody, a[..i], Trim(a) + b);
  }

  lemma {:induction false} ChunkAfterStep(k: Kind, maxBody: nat, a: seq<byte>, b: seq<byte>)
    requires |a| >= Least(k) && |Trim(a)| >= Least(k) && Trim(a + b) == Trim(a) + b
    requires !InfoOf(k, maxBody, Trim(a)).Short?
    requires InfoOf(k, maxBody, Trim(a) + b) == InfoOf(k, maxBody, Trim(a))
    ensures Parsed(k, maxBody, a + b) == Parsed(k, maxBody, a) + Parsed(k, maxBody, Rest(k, maxBody, a) + b)
    ensures Trim(Rest(k, maxBody, a + b)) == Trim(Rest(k, maxBody, Rest(k, maxBody, a) + b))
    decreases |a|, 0
  {
    hide InfoOf, FirstStx, Drain, Trim;
    var t := Trim(a);
    DrainStep(k, maxBody, a);
    DrainStep(k, maxBody, a + b);
    var n := if InfoOf(k, maxBody, t).Bad? then 1 else InfoOf(k, maxBody, t).need;
    assert (t + b)[n..] == t[n..] + b;
    ChunkIndependence(k, maxBody, t[n..], b);
    if InfoOf(k, maxBody, t).Complete? {
      assert Extract(k, t + b, n) == Extract(k, t, n);
    }
  }

  // The drain threw everything away in one last skip.
  predicate EndsInJunk(k: Kind, maxBody: nat, s: seq<byte>) {
    var d := Drain(k, maxBody, s);
    d.rest == [] && d.pieces != [] && d.pieces[|d.pieces| - 1].Skipped?
  }

  /** The leftovers too are the same, octet for octet, except when the first segment ended in junk
      and the octets after it are both too few to look at and junk at the front. */
  lemma {:induction false} RestsAgreeIff(k: Kind, maxBody: nat, a: seq<byte>, b: seq<byte>)
    ensures Rest(k, maxBody, a + b) == Rest(k, maxBody, Rest(k, maxBody, a) + b)
            <==> !(EndsInJunk(k, maxBody, a) && |b| < Least(k) && Trim(b) != b)
    decreases |a|
  {
    hide InfoOf, Trim, Rest, Parsed, EndsInJunk;
    var t := Trim(a);
    if |a| < Least(k) {
      SmallDrain(k, maxBody, a);
      JunkAtTheEnd(k, maxBody, a);
    } else {
      TrimFacts(a, b);
      DrainStep(k, maxBody, a);
      DrainStep(k, maxBody, a + b);
      JunkAtTheEnd(k, maxBody, a);
      if |t| < Least(k) || InfoOf(k, maxBody, t).Short? {
        RestAfterTrim(k, maxBody, a, b);
      } else {
        VerdictStable(k, maxBody, t, b);
        var n := if InfoOf(k, maxBody, t).Bad? then 1 else InfoOf(k, maxBody, t).need;
        assert (t + b)[n..] == t[n..] + b;
        RestsAgreeIff(k, maxBody, t[n..], b);
      }
    }
  }

  // Whether a drain ends in junk, along the turns of its loop.
  lemma JunkAtTheEnd(k: Kind, maxBody: nat, s: seq<byte>)
    ensures var t := Trim(s);
            EndsInJunk(k, maxBody, s) <==>
              if |s| < Least(k) then false
              else if |t| < Least(k) || InfoOf(k, maxBody, t).Short? then t == []
              else
                var n := if InfoOf(k, maxBody, t).Bad? then 1 else InfoOf(k, maxBody, t).need;
                n <= |t| && EndsInJunk(k, maxBody, t[n..])
  {
    hide InfoOf;
    var t := Trim(s);
    if |s| >= Least(k) && |t| >= Least(k) && !InfoOf(k, maxBody, t).Short? {
      InfoBounds(k, maxBody, t);
      var n := if InfoOf(k, maxBody, t).Bad? then 1 else InfoOf(k, maxBody, t).need;
      NoPieces(k, maxBody, t[n..]);
    }
  }

  lemma NoPieces(k: Kind, maxBody: nat, s: seq<byte>)
    ensures Drain(k, maxBody, s).pieces == [] ==> Rest(k, maxBody, s) == s
  {
    Conservation(k, maxBody, s);
  }

  lemma RestAfterTrim(k: Kind, maxBody: nat, a: seq<byte>, b: seq<byte>)
    requires |a| >= Least(k)
    ensures Rest(k, maxBody, a + b) == Rest(k, maxBody, Trim(a) + b)
            <==> !(Trim(a) == [] && |b| < Least(k) && Trim(b) != b)
  {
    hide InfoOf, Trim, Rest, Parsed;
    var t := Trim(a);
    TrimFacts(a, b);
    TrimFacts(t, b);
    DrainStep(k, maxBody, a + b);
    if t == [] { assert t + b == b; }
    if |t + b| < Least(k) {
      SmallDrain(k, maxBody, t + b);
    } else {
      DrainStep(k, maxBody, t + b);
    }
  }

  // The drain loop run once per received segment.
  function FeedAll(k: Kind, maxBody: nat, kept: seq<byte>, chunks: seq<seq<byte>>): (seq<Frame>, seq<byte>)
    decreases |chunks|
  {
    if chunks == [] then ([], kept)
    else
      var s := kept + chunks[0];
      var (frames, rest) := FeedAll(k, maxBody, Rest(k, maxBody, s), chunks[1..]);
      (Parsed(k, maxBody, s) + frames, rest)
  }

  /** However a stream is cut into segments, the same frames come out, and what is left over
      differs at most by octets no frame can start with. */
  lemma {:induction false} AnyChunking(k: Kind, maxBody: nat, kept: seq<byte>, chunks: seq<seq<byte>>)
    requires Parsed(k, maxBody, kept) == [] && Rest(k, maxBody, kept) == kept
    ensures FeedAll(k, maxBody, kept, chunks).0 == Parsed(k, maxBody, kept + Joined(chunks))
    ensures Trim(FeedAll(k, maxBody, kept, chunks).1) == Trim(Rest(k, maxBody, kept + Joined(chunks)))
    decreases |chunks|
  {
    hide Parsed, Rest, Trim;
    if chunks == [] {
      assert kept + [] == kept;
    } else {
      var s := kept + chunks[0];
      var r := Rest(k, maxBody, s);
      RestIsDrained(k, maxBody, s);
      AnyChunking(k, maxBody, r, chunks[1..]);
      ChunkIndependence(k, maxBody, s, Joined(chunks[1..]));
      assert kept + Joined(chunks) == s + Joined(chunks[1..]);
    }
  }

  lemma {:induction false} RestIsDrained(k: Kind, maxBody: nat, s: seq<byte>)
    ensures Parsed(k, maxBody, Rest(k, maxBody, s)) == []
    ensures Rest(k, maxBody, Rest(k, maxBody, s)) == Rest(k, maxBody, s)
    decreases |s|
  {
    hide InfoOf, FirstStx, Drain;
    if |s| < Least(k) {
      SmallDrain(k, maxBody, s);
    } else {
      DrainStep(k, maxBody, s);
      var t := Trim(s);
      if |t| < Least(k) {
        SmallDrain(k, maxBody, t);
      } else if InfoOf(k, maxBody, t).Short? {
        DrainStep(k, maxBody, t);
        TrimFacts(s, []);
      } else if InfoOf(k, maxBody, t).Bad? {
        RestIsDrained(k, maxBody, t[1..]);
      } else {
        RestIsDrained(k, maxBody, t[InfoOf(k, maxBody, t).need..]);
      }
    }
  }
}
