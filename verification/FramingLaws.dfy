/** What the two framings guarantee: parsing inverts printing, the buffer never fills, and what
    happens to session frames that arrive behind a SYNC in one segment. */
module FramingLaws {
  import opened Bytes
  import opened Framing

  // --- Printer and parser ---

  // The frames a sender can get through: in the compact framing ETX ends the body, except that
  // a SYNC always has 14 octets.
  predicate WellFormed(k: Kind, maxBody: nat, f: Frame) {
    if k == Session then |f.body| <= maxBody
    else if f.msgType == SYNC then |f.body| == SYNC_BODY
    else |f.body| <= maxBody && ETX !in f.body
  }

  lemma {:induction false} ScanFinds(maxBody: nat, p: seq<byte>, i: nat, at: nat)
    requires 3 <= i <= at < |p| && at - 3 <= maxBody && p[at] == ETX && ETX !in p[i..at]
    ensures ScanEtx(maxBody, p, i) == Complete(at + 1)
    decreases at - i
  {
    if i < at {
      assert p[i..at][0] == p[i];
      assert p[i + 1..at] == p[i..at][1..];
      ScanFinds(maxBody, p, i + 1, at);
    }
  }

  lemma PrintedIsRecognised(k: Kind, maxBody: nat, f: Frame, more: seq<byte>)
    requires maxBody < 0x1_0000 && WellFormed(k, maxBody, f)
    ensures var p := Print(k, f);
            && InfoOf(k, maxBody, p + more) == Complete(|p|)
            && |p| == Header(k) + |f.body| + 1
            && Extract(k, p + more, |p|) == f
  {
    var p := Print(k, f);
    if k == Session {
      SessionPrinted(maxBody, f, more);
    } else if f.msgType == SYNC {
      assert (p + more)[3..17] == f.body;
    } else {
      assert (p + more)[3..|p| - 1] == f.body;
      ScanFinds(maxBody, p + more, 3, |p| - 1);
    }
  }

  lemma SessionPrinted(maxBody: nat, f: Frame, more: seq<byte>)
    requires maxBody < 0x1_0000 && |f.body| <= maxBody
    ensures var p := Print(Session, f);
            && InfoOf(Session, maxBody, p + more) == Complete(|p|)
            && |p| == 6 + |f.body|
            && Extract(Session, p + more, |p|) == f
  {
    hide PutBe16, Be16;
    var p := Print(Session, f) + more;
    var len := PutBe16(|f.body| % 0x1_0000);
    assert p[1] == len[0] && p[2] == len[1] && p[3] == f.msgType && p[4] == f.seqNo;
    assert p[5..5 + |f.body|] == f.body && p[5 + |f.body|] == ETX;
  }

  // --- The verdicts ---

  /** The layout of both framings, octet by octet. */
  lemma Layout(f: Frame)
    ensures Print(Compact, f) == [0x55, f.msgType, f.seqNo] + f.body + [0x03]
    ensures |f.body| < 0x1_0000 ==>
              Print(Session, f) == [0x55, |f.body| / 256, |f.body| % 256, f.msgType, f.seqNo] + f.body + [0x03]
  {}

  /** A frame is recognised exactly where a well-formed one is printed at the front. */
  lemma CompleteIff(k: Kind, maxBody: nat, p: seq<byte>)
    requires maxBody < 0x1_0000
    ensures InfoOf(k, maxBody, p).Complete? <==> exists f :: WellFormed(k, maxBody, f) && Print(k, f) <= p
    ensures forall f :: WellFormed(k, maxBody, f) && Print(k, f) <= p ==>
              InfoOf(k, maxBody, p) == Complete(|Print(k, f)|)
  {
    hide InfoOf, Print, WellFormed, Extract;
    if InfoOf(k, maxBody, p).Complete? {
      PrintOfExtract(k, maxBody, p);
      var f := Extract(k, p, InfoOf(k, maxBody, p).need);
      ExtractedIsWellFormed(k, maxBody, p);
      assert WellFormed(k, maxBody, f) && Print(k, f) <= p;
    }
    forall f | WellFormed(k, maxBody, f) && Print(k, f) <= p
      ensures InfoOf(k, maxBody, p) == Complete(|Print(k, f)|)
    {
      PrintedIsRecognised(k, maxBody, f, p[|Print(k, f)|..]);
      assert p == Print(k, f) + p[|Print(k, f)|..];
    }
  }

  lemma ExtractedIsWellFormed(k: Kind, maxBody: nat, p: seq<byte>)
    requires InfoOf(k, maxBody, p).Complete?
    ensures Header(k) < InfoOf(k, maxBody, p).need <= |p|
    ensures WellFormed(k, maxBody, Extract(k, p, InfoOf(k, maxBody, p).need))
  {
    InfoBounds(k, maxBody, p);
    if k == Compact && p[1] != SYNC {
      ScanBounds(maxBody, p, 3);
    }
  }

  /** The parser waits for more octets exactly while what it has is no frame but could still become
      one: with at least the octets it looks at and STX in front, the verdict is "too short" if and
      only if some continuation, and not the octets themselves, completes a frame. */
  lemma ShortIff(k: Kind, maxBody: nat, p: seq<byte>)
    requires |p| >= Least(k) && p[0] == STX
    ensures InfoOf(k, maxBody, p).Short? <==>
            !InfoOf(k, maxBody, p).Complete? && exists more :: InfoOf(k, maxBody, p + more).Complete?
  {
    hide ScanEtx;
    if InfoOf(k, maxBody, p).Short? {
      var more := Completion(k, maxBody, p);
      assert InfoOf(k, maxBody, p + more).Complete?;
    } else if more :| InfoOf(k, maxBody, p + more).Complete? {
      VerdictStable(k, maxBody, p, more);
    }
  }

  lemma Completion(k: Kind, maxBody: nat, p: seq<byte>) returns (more: seq<byte>)
    requires |p| >= Least(k) && p[0] == STX && InfoOf(k, maxBody, p).Short?
    ensures InfoOf(k, maxBody, p + more).Complete?
  {
    hide ScanEtx;
    if k == Session {
      var need := 6 + Be16(p[1], p[2]);
      more := seq(need - |p| - 1, _ => 0) + [ETX];
      assert (p + more)[need - 1] == ETX;
    } else if p[1] == SYNC {
      more := seq(SYNC_FRAME - 1 - |p|, _ => 0) + [ETX];
      assert (p + more)[SYNC_FRAME - 1] == ETX;
    } else {
      more := [ETX];
      ScanBounds(maxBody, p, 3);
      ShortScan(maxBody, p, 3);
      assert (p + more)[3..|p|] == p[3..];
      ScanFinds(maxBody, p + more, 3, |p|);
    }
  }

  lemma {:induction false} ShortScan(maxBody: nat, p: seq<byte>, i: nat)
    requires 3 <= i <= |p| && i - 3 <= maxBody && ScanEtx(maxBody, p, i).Short?
    ensures |p| - 3 <= maxBody
    decreases |p| - i
  {
    if i < |p| {
      ShortScan(maxBody, p, i + 1);
    }
  }

  /** Octets that start with STX, hold no other, and are refused cost no frame behind them: the
      counterpart of JunkInFront. */
  lemma RefusedInFront(k: Kind, maxBody: nat, junk: seq<byte>, s: seq<byte>)
    requires |junk| >= Least(k) && junk[0] == STX && STX !in junk[1..] && InfoOf(k, maxBody, junk).Bad?
    ensures SameOutcome(k, maxBody, junk + s, s)
  {
    hide InfoOf, Parsed, Rest, Trim;
    var t := junk + s;
    TrimOfFrame(t);
    VerdictStable(k, maxBody, junk, s);
    DrainStep(k, maxBody, t);
    assert t[1..] == junk[1..] + s;
    JunkInFront(k, maxBody, junk[1..], s);
  }

  /** So a session frame with a wrong trailer or a length over the limit costs only itself. */
  lemma WrongTrailerInFront(maxBody: nat, junk: seq<byte>, s: seq<byte>)
    requires |junk| >= 6 && junk[0] == 0x55 && STX !in junk[1..]
    requires var len := 256 * junk[1] as int + junk[2];
             len > maxBody || (|junk| >= 6 + len && junk[5 + len] != 0x03)
    ensures Parsed(Session, maxBody, junk + s) == Parsed(Session, maxBody, s)
  {
    RefusedInFront(Session, maxBody, junk, s);
  }

  // --- Streams of frames ---

  // Frames with anything free of STX in front of each.
  function PrintAll(k: Kind, items: seq<(seq<byte>, Frame)>): seq<byte> {
    if items == [] then [] else items[0].0 + Print(k, items[0].1) + PrintAll(k, items[1..])
  }

  function FramesOf(items: seq<(seq<byte>, Frame)>): seq<Frame> {
    if items == [] then [] else [items[0].1] + FramesOf(items[1..])
  }

  /** Parsing a stream of printed frames, with junk free of STX before any of them, returns
      exactly those frames and leaves nothing. */
  lemma {:induction false} ParseInvertsPrint(k: Kind, maxBody: nat, items: seq<(seq<byte>, Frame)>)
    requires maxBody < 0x1_0000
    requires forall x :: x in items ==> STX !in x.0 && WellFormed(k, maxBody, x.1)
    ensures Parsed(k, maxBody, PrintAll(k, items)) == FramesOf(items)
    ensures Trim(Rest(k, maxBody, PrintAll(k, items))) == []
    ensures (forall x :: x in items ==> x.0 == []) ==> Rest(k, maxBody, PrintAll(k, items)) == []
    decreases |items|
  {
    hide Parsed, Rest, Trim, Print;
    if items == [] {
      SmallDrain(k, maxBody, []);
      TrimFacts([], []);
      NothingToTrim();
    } else {
      var (junk, f) := items[0];
      var tail := PrintAll(k, items[1..]);
      assert items[0] in items;
      ParseInvertsPrint(k, maxBody, items[1..]);
      FrontFrame(k, maxBody, f, tail);
      JunkInFront(k, maxBody, junk, Print(k, f) + tail);
      assert junk + Print(k, f) + tail == junk + (Print(k, f) + tail);
      if junk == [] {
        assert junk + (Print(k, f) + tail) == Print(k, f) + tail;
      }
    }
  }

  lemma NothingToTrim()
    ensures Trim([]) == []
  {}

  lemma FrontFrame(k: Kind, maxBody: nat, f: Frame, s: seq<byte>)
    requires maxBody < 0x1_0000 && WellFormed(k, maxBody, f)
    ensures Parsed(k, maxBody, Print(k, f) + s) == [f] + Parsed(k, maxBody, s)
    ensures Rest(k, maxBody, Print(k, f) + s) == Rest(k, maxBody, s)
  {
    var p := Print(k, f);
    PrintedIsRecognised(k, maxBody, f, s);
    assert Trim(p + s) == p + s;
    DrainStep(k, maxBody, p + s);
    assert (p + s)[|p|..] == s;
  }

  /** A compact frame parses back exactly when it is a SYNC of 14 octets or, not being a SYNC,
      has no ETX in its body. */
  lemma CompactRoundTripIff(maxBody: nat, f: Frame)
    requires maxBody < 0x1_0000 && |f.body| <= maxBody
    ensures Parsed(Compact, maxBody, Print(Compact, f)) == [f]
            <==> if f.msgType == SYNC then |f.body| == SYNC_BODY else ETX !in f.body
  {
    if WellFormed(Compact, maxBody, f) {
      FrontFrame(Compact, maxBody, f, []);
      SmallDrain(Compact, maxBody, []);
      assert Print(Compact, f) + [] == Print(Compact, f);
    } else {
      MalformedCompact(maxBody, f);
    }
  }

  lemma MalformedCompact(maxBody: nat, f: Frame)
    requires maxBody < 0x1_0000 && |f.body| <= maxBody && !WellFormed(Compact, maxBody, f)
    ensures Parsed(Compact, maxBody, Print(Compact, f)) != [f]
  {
    hide Drain, FirstStx, ScanEtx;
    var p := Print(Compact, f);
    PrintLength(Compact, f);
    assert Trim(p) == p by { TrimOfFrame(p); }
    DrainStep(Compact, maxBody, p);
    match InfoOf(Compact, maxBody, p)
    case Short =>
    case Bad(_) =>
      if f in Parsed(Compact, maxBody, p[1..]) { DeliveredFits(Compact, maxBody, p[1..], f); }
    case Complete(need) =>
      if f.msgType != SYNC {
        ScanBounds(maxBody, p, 3);
        assert p[3..|p| - 1] == f.body;
      }
      assert |Extract(Compact, p, need).body| == need - 4 < |f.body|;
      assert Parsed(Compact, maxBody, p)[0] == Extract(Compact, p, need) != f;
  }

  lemma TrimOfFrame(p: seq<byte>)
    requires p != [] && p[0] == STX
    ensures Trim(p) == p
  {}

  // A delivered frame was there: its printed form is no longer than the input.
  lemma DeliveredFits(k: Kind, maxBody: nat, s: seq<byte>, f: Frame)
    requires maxBody < 0x1_0000 && f in Parsed(k, maxBody, s)
    ensures Header(k) + |f.body| + 1 <= |s|
  {
    hide Drain, Print;
    var d := Drain(k, maxBody, s);
    Conservation(k, maxBody, s);
    DeliveredAsPrinted(k, maxBody, s);
    var p := PieceOf(d.pieces, f);
    PrintLength(k, f);
  }

  lemma PrintLength(k: Kind, f: Frame)
    ensures |Print(k, f)| == Header(k) + |f.body| + 1
  {}

  lemma {:induction false} PieceOf(pieces: seq<Piece>, f: Frame) returns (p: Piece)
    requires f in Frames(pieces)
    ensures p in pieces && p.Delivered? && p.frame == f
    ensures |p.octets| <= |Octets(pieces)|
  {
    if pieces[0].Delivered? && pieces[0].frame == f {
      p := pieces[0];
    } else {
      p := PieceOf(pieces[1..], f);
    }
  }

  // --- How much the buffer can hold back ---

  // The most octets a drain leaves behind.
  function MaxRest(k: Kind, maxBody: nat): nat {
    if k == Session then maxBody + 5 else if maxBody + 3 < 17 then 17 else maxBody + 3
  }

  lemma {:induction false} RestBound(k: Kind, maxBody: nat, s: seq<byte>)
    ensures |Rest(k, maxBody, s)| <= MaxRest(k, maxBody)
    ensures |Rest(k, maxBody, s)| <= |s|
    decreases |s|
  {
    hide Drain, FirstStx, ScanEtx;
    if |s| < Least(k) {
      SmallDrain(k, maxBody, s);
    } else {
      DrainStep(k, maxBody, s);
      var t := Trim(s);
      if |t| >= Least(k) {
        if InfoOf(k, maxBody, t).Short? {
          if k == Compact && t[1] != SYNC { ScanBounds(maxBody, t, 3); }
        } else if InfoOf(k, maxBody, t).Bad? {
          RestBound(k, maxBody, t[1..]);
        } else {
          RestBound(k, maxBody, t[InfoOf(k, maxBody, t).need..]);
        }
      }
    }
  }

  // A stream that is held back to the last octet.
  function Longest(k: Kind, maxBody: nat): seq<byte>
    requires maxBody < 0x1_0000
  {
    if k == Session then [STX] + PutBe16(maxBody) + seq(2 + maxBody, _ => 0)
    else if maxBody + 3 < 17 then [STX, SYNC] + seq(15, _ => 0)
    else [STX, 0] + seq(maxBody + 1, _ => 0)
  }

  lemma RestBoundReached(k: Kind, maxBody: nat)
    requires maxBody < 0x1_0000
    ensures |Rest(k, maxBody, Longest(k, maxBody))| == MaxRest(k, maxBody)
  {
    hide Drain, Rest, FirstStx, ScanEtx, PutBe16, Be16;
    var s := Longest(k, maxBody);
    if k == Session {
      LengthOf(maxBody, s);
      NotYet(k, maxBody, s);
    } else if maxBody + 3 < 17 {
      NotYet(k, maxBody, s);
    } else {
      ScanShort(maxBody, s, 3);
      NotYet(k, maxBody, s);
    }
  }

  lemma LengthOf(n: nat, s: seq<byte>)
    requires n < 0x1_0000 && |s| >= 3 && s[1..3] == PutBe16(n)
    ensures Be16(s[1], s[2]) == n
  {
    assert s[1] == s[1..3][0] && s[2] == s[1..3][1];
  }

  lemma NotYet(k: Kind, maxBody: nat, s: seq<byte>)
    requires s != [] && s[0] == STX && (|s| < Least(k) || InfoOf(k, maxBody, s).Short?)
    ensures Rest(k, maxBody, s) == s
  {
    hide Drain, FirstStx, InfoOf;
    TrimOfFrame(s);
    if |s| < Least(k) { SmallDrain(k, maxBody, s); } else { DrainStep(k, maxBody, s); }
  }

  lemma {:induction false} ScanShort(maxBody: nat, p: seq<byte>, i: nat)
    requires 3 <= i <= |p| <= maxBody + 3 && ETX !in p[3..]
    ensures ScanEtx(maxBody, p, i) == Short
    decreases |p| - i
  {
    if i < |p| {
      assert p[3..][i - 3] == p[i];
      ScanShort(maxBody, p, i + 1);
    }
  }

  // BUILD_ASSERT(TCP_STREAM_BUF >= header + MAX_BODY + tail of a session frame)
  predicate BuildAssertion(maxBody: nat, cap: nat) {
    maxBody <= 256 && cap >= 5 + maxBody + 1
  }

  /** No drain of what the buffer can hold ever leaves it full. For the session framing the build
      assertion alone guarantees it; for the handshake it does exactly when the buffer also holds
      one SYNC frame, as every Kconfig value of 256 or more does. */
  lemma BufferNeverFullIff(k: Kind, maxBody: nat, cap: nat)
    requires BuildAssertion(maxBody, cap)
    ensures (forall s :: |s| <= cap ==> |Rest(k, maxBody, s)| < cap) <==> k == Session || cap >= SYNC_FRAME
  {
    hide Drain, Rest;
    if k == Session || cap >= SYNC_FRAME {
      forall s | |s| <= cap ensures |Rest(k, maxBody, s)| < cap { RestBound(k, maxBody, s); }
    } else {
      UnfinishedSync(maxBody, cap);
      assert !(|Rest(k, maxBody, [STX, SYNC] + seq(cap - 2, _ => 0))| < cap);
    }
  }

  lemma UnfinishedSync(maxBody: nat, n: nat)
    requires 3 <= n < SYNC_FRAME
    ensures var s := [STX, SYNC] + seq(n - 2, _ => 0);
            |s| == n && Rest(Compact, maxBody, s) == s
  {
    NotYet(Compact, maxBody, [STX, SYNC] + seq(n - 2, _ => 0));
  }

  // --- Session frames behind a SYNC ---

  // Octets the compact parser cannot decide on yet.
  predicate Undecided(maxBody: nat, tail: seq<byte>) {
    |tail| < 3 || (tail[0] == STX && InfoOf(Compact, maxBody, tail).Short?)
  }

  /** The handshake drains its whole buffer in the compact framing. What follows a SYNC in the
      same segment reaches the session untouched exactly when the compact parser cannot even
      decide on it. */
  lemma HandoverIff(maxBody: nat, sync: Frame, tail: seq<byte>)
    requires maxBody < 0x1_0000 && sync.msgType == SYNC && |sync.body| == SYNC_BODY
    ensures Rest(Compact, maxBody, Print(Compact, sync) + tail) == tail
            <==> Undecided(maxBody, tail)
    ensures Undecided(maxBody, tail) ==> Parsed(Compact, maxBody, Print(Compact, sync) + tail) == [sync]
  {
    FrontFrame(Compact, maxBody, sync, tail);
    if |tail| < 3 {
      SmallDrain(Compact, maxBody, tail);
    } else {
      DrainStep(Compact, maxBody, tail);
      var t := Trim(tail);
      if |t| >= 3 && !InfoOf(Compact, maxBody, t).Short? {
        var n := if InfoOf(Compact, maxBody, t).Bad? then 1 else InfoOf(Compact, maxBody, t).need;
        RestBound(Compact, maxBody, t[n..]);
      }
    }
  }

  /** So a session frame directly behind the SYNC in one segment is always lost to the session,
      whatever follows it: at least its first octet is consumed. */
  lemma PipelinedFrameLost(maxBody: nat, sync: Frame, f: Frame, more: seq<byte>)
    requires maxBody <= 256 && sync.msgType == SYNC && |sync.body| == SYNC_BODY
    requires WellFormed(Session, maxBody, f)
    ensures |Rest(Compact, maxBody, Print(Compact, sync) + (Print(Session, f) + more))| < |Print(Session, f) + more|
  {
    hide Parsed, Rest, Trim, Print, InfoOf;
    var t := Print(Session, f) + more;
    FrontFrame(Compact, maxBody, sync, t);
    CompactDecides(maxBody, f, more);
    TrimOfFrame(t);
    InfoBounds(Compact, maxBody, t);
    DrainStep(Compact, maxBody, t);
    var n := if InfoOf(Compact, maxBody, t).Bad? then 1 else InfoOf(Compact, maxBody, t).need;
    RestBound(Compact, maxBody, t[n..]);
  }

  // The compact parser never waits for more octets than a session frame has.
  lemma CompactDecides(maxBody: nat, f: Frame, more: seq<byte>)
    requires maxBody <= 256 && WellFormed(Session, maxBody, f)
    ensures var t := Print(Session, f) + more;
            |t| >= 6 && t[0] == STX && !InfoOf(Compact, maxBody, t).Short?
  {
    hide ScanEtx;
    var p := Print(Session, f);
    var t := p + more;
    PrintLength(Session, f);
    ScanBounds(maxBody, t, 3);
    assert t[|p| - 1] == ETX && t[|p| - 1] in t[3..];
    if t[1] == SYNC {
      assert |f.body| >= 256;
    }
  }

  // Two octets that look like the start of a second SYNC.
  const DECOY: seq<byte> := [STX, SYNC]

  /** Behind two octets that make the compact parser wait for a second SYNC, a frame that ends
      before that SYNC would is handed over whole, and the session parses exactly it. */
  lemma ShieldedFrameSurvives(maxBody: nat, sync: Frame, f: Frame)
    requires maxBody <= 256 && sync.msgType == SYNC && |sync.body| == SYNC_BODY
    requires WellFormed(Session, maxBody, f)
    ensures |f.body| <= 9 <==>
              Rest(Compact, maxBody, Print(Compact, sync) + (DECOY + Print(Session, f))) == DECOY + Print(Session, f)
    ensures Parsed(Session, maxBody, DECOY + Print(Session, f)) == [f]
    ensures Rest(Session, maxBody, DECOY + Print(Session, f)) == []
  {
    hide Parsed, Rest, Print, ScanEtx;
    var tail := DECOY + Print(Session, f);
    PrintLength(Session, f);
    HandoverIff(maxBody, sync, tail);
    DecoySkipped(maxBody, f);
  }

  lemma DecoySkipped(maxBody: nat, f: Frame)
    requires maxBody <= 256 && WellFormed(Session, maxBody, f)
    ensures Parsed(Session, maxBody, DECOY + Print(Session, f)) == [f]
    ensures Rest(Session, maxBody, DECOY + Print(Session, f)) == []
  {
    hide Parsed, Rest, Trim;
    var p := Print(Session, f);
    var tail := DECOY + p;
    TrimOfFrame(tail);
    DrainStep(Session, maxBody, tail);
    assert tail[1] == SYNC && tail[2] == STX && InfoOf(Session, maxBody, tail) == Bad(3);
    assert tail[1..] == [SYNC] + p;
    JunkBeforeFrame(maxBody, [SYNC], p);
    FrontFrame(Session, maxBody, f, []);
    assert p + [] == p;
    SmallDrain(Session, maxBody, []);
  }

  lemma JunkBeforeFrame(maxBody: nat, junk: seq<byte>, p: seq<byte>)
    requires STX !in junk && |p| >= 6 && p[0] == STX
    ensures Parsed(Session, maxBody, junk + p) == Parsed(Session, maxBody, p)
    ensures Rest(Session, maxBody, junk + p) == Rest(Session, maxBody, p)
  {
    hide Parsed, Rest, Trim;
    TrimOfJunk(junk, p);
    DrainStep(Session, maxBody, junk + p);
    DrainStep(Session, maxBody, p);
  }
}
