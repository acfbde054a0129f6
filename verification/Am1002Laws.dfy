/** The AM1002 stream: when a frame is accepted, and for which joins in mid-frame a receiver ever
    finds the frame boundaries again. */
module Am1002Laws {
  import opened Bytes
  import opened GasSensor
  import opened GasLaws

  const START: byte := 0x16
  const FRAME: nat := 22

  // --- One frame ---

  lemma {:induction false} FrameIsGathered(acc: seq<byte>, r: Reading, frame: seq<byte>)
    requires |acc| + |frame| == 22 && frame != [] && (acc == [] ==> frame[0] == 0x16)
    ensures Feed(Am1002, Sensor(acc, r), frame) == Sensor([], ParseAm1002(acc + frame, r))
    decreases |frame|
  {
    hide ParseAm1002;
    if |frame| == 1 {
      assert frame == [frame[0]];
      FeedOne(Am1002, Sensor(acc, r), frame[0]);
    } else {
      assert Step(Am1002, Sensor(acc, r), frame[0]) == Sensor(acc + [frame[0]], r);
      FrameIsGathered(acc + [frame[0]], r, frame[1..]);
      assert acc + frame == acc + [frame[0]] + frame[1..];
    }
  }

  /** A 22-octet frame that starts on an empty accumulator gives a reading exactly when its
      header matches and all its octets sum to zero mod 256; otherwise the last reading stays. */
  lemma FrameAcceptedIff(r: Reading, frame: seq<byte>)
    requires |frame| == 22 && frame[0] == 0x16
    ensures Feed(Am1002, Sensor([], r), frame) ==
            Sensor([], if frame[1] == 0x13 && frame[2] == 0x16 && Sum(frame) % 256 == 0
                       then Reading(true, Be16(frame[9], frame[10]), Be16(frame[9], frame[10]) as real) else r)
  {
    hide Sum, Feed;
    FrameIsGathered([], r, frame);
    assert [] + frame == frame;
    SumOfLast(frame);
    ChecksumIff(Sum(frame[..21]), frame[21]);
  }

  lemma SumOfLast(s: seq<byte>)
    requires s != []
    ensures Sum(s) == Sum(s[..|s| - 1]) + s[|s| - 1]
  {}

  lemma ChecksumIff(sum: nat, c: byte)
    ensures (256 - sum % 256) % 256 == c as int <==> (sum + c) % 256 == 0
  {
    var m := sum % 256;
    assert (sum + c) % 256 == (m + c) % 256;
  }

  lemma {:induction false} SumAppend(a: seq<byte>, b: seq<byte>)
    ensures Sum(a + b) == Sum(a) + Sum(b)
    decreases |b|
  {
    if b == [] {
      assert a + b == a;
    } else {
      var n := |b| - 1;
      assert (a + b)[..|a + b| - 1] == a + b[..n];
      SumAppend(a, b[..n]);
    }
  }

  // --- A receiver that joins in mid-frame ---

  predicate ValidFrame(f: seq<byte>) {
    |f| == FRAME && f[0] == START && f[1] == 0x13 && f[2] == START && Sum(f) % 256 == 0
  }

  function FirstStart(s: seq<byte>): (i: nat)
    ensures i <= |s| && (i < |s| ==> s[i] == START)
    ensures forall k :: 0 <= k < i ==> s[k] != START
  {
    if s == [] || s[0] == START then 0 else 1 + FirstStart(s[1..])
  }

  lemma {:induction false} StartIsAwaited(r: Reading, s: seq<byte>)
    requires |s| < FRAME
    ensures Feed(Am1002, Sensor([], r), s) == Sensor(s[FirstStart(s)..], r)
    decreases |s|
  {
    if s != [] {
      if s[0] == START {
        Gathering([START], r, s[1..]);
        assert [START] + s[1..] == s == s[0..];
        assert Step(Am1002, Sensor([], r), s[0]) == Sensor([START], r) by { assert [] + [START] == [START]; }
      } else {
        StartIsAwaited(r, s[1..]);
      }
    }
  }

  lemma {:induction false} Gathering(acc: seq<byte>, r: Reading, s: seq<byte>)
    requires acc != [] && |acc| + |s| < FRAME
    ensures Feed(Am1002, Sensor(acc, r), s) == Sensor(acc + s, r)
    decreases |s|
  {
    if s != [] {
      Gathering(acc + [s[0]], r, s[1..]);
      assert acc + [s[0]] + s[1..] == acc + s;
    } else {
      assert acc + s == acc;
    }
  }

  // At a frame boundary of the stream the receiver holds the end of the last frame from p on, 0
  // meaning nothing: it is aligned. Where this leaves it after one more frame.
  function Next(p: nat, f: seq<byte>): (q: nat)
    requires |f| == FRAME && p < FRAME
    ensures q < FRAME && (q > 0 ==> p > 0 && p <= q && f[q] == START)
  {
    if p == 0 then 0
    else
      var q := p + FirstStart(f[p..]);
      if q == FRAME then 0 else q
  }

  function Held(p: nat, f: seq<byte>): seq<byte>
    requires p < FRAME == |f|
  {
    if p == 0 then [] else f[p..]
  }

  // The octets it takes for a frame meanwhile.
  function Block(p: nat, last: seq<byte>, f: seq<byte>): (b: seq<byte>)
    requires p < FRAME == |f| == |last|
    ensures |b| == FRAME
  {
    if p == 0 then f else last[p..] + f[..p]
  }

  lemma FrameStep(p: nat, last: seq<byte>, f: seq<byte>, r: Reading)
    requires p < FRAME == |last| && ValidFrame(f) && (p > 0 ==> last[p] == START)
    ensures Feed(Am1002, Sensor(Held(p, last), r), f) ==
            Sensor(Held(Next(p, f), f), ParseAm1002(Block(p, last, f), r))
  {
    hide Feed, ParseAm1002, Sum;
    if p == 0 {
      FrameIsGathered([], r, f);
      assert [] + f == f;
    } else {
      assert f == f[..p] + f[p..];
      PacketsDoNotMatter(Am1002, Sensor(last[p..], r), f[..p], f[p..]);
      FrameIsGathered(last[p..], r, f[..p]);
      var r' := ParseAm1002(Block(p, last, f), r);
      StartIsAwaited(r', f[p..]);
      assert f[p..][FirstStart(f[p..])..] == f[p + FirstStart(f[p..])..];
    }
  }

  predicate ValidFrames(frames: seq<seq<byte>>) {
    forall f :: f in frames ==> ValidFrame(f)
  }

  // Position and reading after a run of frames.
  function Follow(p: nat, last: seq<byte>, frames: seq<seq<byte>>, r: Reading): (nat, Reading)
    requires p < FRAME == |last| && ValidFrames(frames)
    decreases |frames|
  {
    if frames == [] then (p, r)
    else
      assert frames[0] in frames;
      Follow(Next(p, frames[0]), frames[0], frames[1..], ParseAm1002(Block(p, last, frames[0]), r))
  }

  function LastOf(last: seq<byte>, frames: seq<seq<byte>>): (f: seq<byte>)
    requires |last| == FRAME && ValidFrames(frames)
    ensures |f| == FRAME
  {
    if frames == [] then last else assert frames[|frames| - 1] in frames; frames[|frames| - 1]
  }

  lemma {:induction false} StreamIsFollowed(p: nat, last: seq<byte>, frames: seq<seq<byte>>, r: Reading)
    requires p < FRAME == |last| && ValidFrames(frames) && (p > 0 ==> last[p] == START)
    ensures var (p', r') := Follow(p, last, frames, r);
            && p' < FRAME
            && Feed(Am1002, Sensor(Held(p, last), r), Joined(frames)) == Sensor(Held(p', LastOf(last, frames)), r')
    decreases |frames|
  {
    hide Feed, ParseAm1002, Sum, Next;
    if frames == [] {
      FeedNothing(Sensor(Held(p, last), r));
    } else {
      var f := frames[0];
      assert f in frames;
      FrameStep(p, last, f, r);
      PacketsDoNotMatter(Am1002, Sensor(Held(p, last), r), f, Joined(frames[1..]));
      StreamIsFollowed(Next(p, f), f, frames[1..], ParseAm1002(Block(p, last, f), r));
    }
  }

  lemma FeedNothing(s: Sensor)
    requires Fits(Am1002, s)
    ensures Feed(Am1002, s, []) == s
  {}

  // A choice of one start octet in every frame, none before the one chosen in the frame before.
  predicate Chain(frames: seq<seq<byte>>, from: nat, ps: seq<nat>)
    requires forall f :: f in frames ==> |f| == FRAME
  {
    && |ps| == |frames|
    && (forall k :: 0 <= k < |ps| ==> from <= ps[k] < FRAME && frames[k][ps[k]] == START)
    && (forall i, k :: 0 <= i < k < |ps| ==> ps[i] <= ps[k])
  }

  ghost predicate Chained(frames: seq<seq<byte>>, from: nat)
    requires forall f :: f in frames ==> |f| == FRAME
  {
    exists ps :: Chain(frames, from, ps)
  }

  // The first frame of a chain and the others.
  lemma ChainHeadIff(frames: seq<seq<byte>>, from: nat)
    requires frames != [] && 0 < from < FRAME && forall f :: f in frames ==> |f| == FRAME
    ensures Chained(frames, from) <==> Next(from, frames[0]) != 0 && Chained(frames[1..], Next(from, frames[0]))
  {
    var q := Next(from, frames[0]);
    var rest := frames[1..];
    if ps :| Chain(frames, from, ps) {
      assert frames[0][from..][ps[0] - from] == START;
      assert 0 < q <= ps[0];
      var ps' := ps[1..];
      forall k | 0 <= k < |ps'| ensures q <= ps'[k] < FRAME && rest[k][ps'[k]] == START {
        assert ps'[k] == ps[k + 1] && rest[k] == frames[k + 1];
      }
      assert Chain(rest, q, ps');
    }
    if q != 0 && Chained(rest, q) {
      var ps :| Chain(rest, q, ps);
      var ps' := [q] + ps;
      forall k | 0 <= k < |ps'| ensures from <= ps'[k] < FRAME && frames[k][ps'[k]] == START {
        if k > 0 { assert ps'[k] == ps[k - 1] && frames[k] == rest[k - 1]; }
      }
      assert Chain(frames, from, ps');
    }
  }

  lemma {:induction false} MisalignedIff(p: nat, last: seq<byte>, frames: seq<seq<byte>>, r: Reading)
    requires p < FRAME == |last| && ValidFrames(frames)
    ensures Follow(p, last, frames, r).0 != 0 <==> p != 0 && Chained(frames, p)
    decreases |frames|
  {
    hide ParseAm1002, Next, Chained, Sum;
    if frames == [] {
      NoFrames(p);
    } else {
      var f := frames[0];
      assert f in frames && ValidFrame(f);
      MisalignedIff(Next(p, f), f, frames[1..], ParseAm1002(Block(p, last, f), r));
      if p != 0 { ChainHeadIff(frames, p); } else { NextOfAligned(f); }
    }
  }

  lemma NextOfAligned(f: seq<byte>)
    requires |f| == FRAME
    ensures Next(0, f) == 0
  {}

  lemma NoFrames(from: nat)
    ensures Chained([], from)
  {
    assert Chain([], from, []);
  }

  /** Joining a stream of valid frames inside the first of them, the receiver stands at a frame
      boundary after the last one exactly when no chain of start octets leads from the join through
      all the frames. */
  lemma AlignsIff(first: seq<byte>, j: nat, frames: seq<seq<byte>>, r: Reading)
    requires ValidFrame(first) && 0 < j < FRAME && ValidFrames(frames)
    ensures Feed(Am1002, Sensor([], r), first[j..] + Joined(frames)).acc == []
            <==> !Chained([first] + frames, j)
  {
    hide Feed, ParseAm1002, Chained, Sum;
    var p := Next(j, first);
    JoinStep(first, j, r);
    PacketsDoNotMatter(Am1002, Sensor([], r), first[j..], Joined(frames));
    StreamIsFollowed(p, first, frames, r);
    MisalignedIff(p, first, frames, r);
    assert ([first] + frames)[1..] == frames;
    ChainHeadIff([first] + frames, j);
  }

  lemma JoinStep(first: seq<byte>, j: nat, r: Reading)
    requires |first| == FRAME && 0 < j < FRAME
    ensures Feed(Am1002, Sensor([], r), first[j..]) == Sensor(Held(Next(j, first), first), r)
  {
    StartIsAwaited(r, first[j..]);
  }

  /** Once aligned it stays so and reads every frame. */
  lemma {:induction false} AlignedReadsAll(frames: seq<seq<byte>>, r: Reading)
    requires ValidFrames(frames) && frames != []
    ensures var f := frames[|frames| - 1];
            && f in frames && ValidFrame(f)
            && Feed(Am1002, Sensor([], r), Joined(frames)) ==
               Sensor([], Reading(true, Be16(f[9], f[10]), Be16(f[9], f[10]) as real))
    decreases |frames|
  {
    hide Feed, Sum;
    var f := frames[0];
    assert f in frames && frames[|frames| - 1] in frames;
    FrameAcceptedIff(r, f);
    PacketsDoNotMatter(Am1002, Sensor([], r), f, Joined(frames[1..]));
    if |frames| > 1 {
      AlignedReadsAll(frames[1..], Feed(Am1002, Sensor([], r), f).reading);
    } else {
      FeedNothing(Feed(Am1002, Sensor([], r), f));
    }
  }

  // --- The same frame over and over ---

  function Repeat(f: seq<byte>, n: nat): (frames: seq<seq<byte>>)
    ensures |frames| == n && forall x :: x in frames ==> x == f
  {
    if n == 0 then [] else [f] + Repeat(f, n - 1)
  }

  /** Where nothing but one frame is repeated, a join at octet j finds the boundary exactly when no
      start octet follows the join. */
  lemma RepeatedFrameAlignsIff(f: seq<byte>, j: nat, n: nat, r: Reading)
    requires ValidFrame(f) && 0 < j < FRAME
    ensures Feed(Am1002, Sensor([], r), f[j..] + Joined(Repeat(f, n))).acc == [] <==> START !in f[j..]
  {
    hide Feed, Sum;
    var frames := [f] + Repeat(f, n);
    AlignsIff(f, j, Repeat(f, n), r);
    ConstantChainIff(f, j, n);
  }

  lemma ConstantChainIff(f: seq<byte>, j: nat, n: nat)
    requires |f| == FRAME && 0 < j < FRAME
    ensures Chained([f] + Repeat(f, n), j) <==> START in f[j..]
  {
    var frames := [f] + Repeat(f, n);
    assert forall k :: 0 <= k < |frames| ==> frames[k] in frames;
    if START in f[j..] {
      var i :| 0 <= i < |f[j..]| && f[j..][i] == START;
      var ps := seq(n + 1, _ => j + i);
      assert f[j + i] == START;
      assert Chain(frames, j, ps);
    }
    if ps :| Chain(frames, j, ps) {
      assert frames[0][ps[0]] == START && f[j..][ps[0] - j] == START;
    }
  }

  function Rotation(f: seq<byte>, p: nat): (g: seq<byte>)
    requires p < FRAME == |f|
    ensures |g| == FRAME
  {
    f[p..] + f[..p]
  }

  /** If a start octet does follow, the receiver stays at the first such octet for ever, and takes
      octets 9 and 10 from there for the reading exactly when a header stands there too. */
  lemma {:induction false} StuckAt(f: seq<byte>, p: nat, n: nat, r: Reading)
    requires ValidFrame(f) && 0 < p < FRAME && f[p] == START
    ensures var g := Rotation(f, p);
            Feed(Am1002, Sensor(f[p..], r), Joined(Repeat(f, n))) ==
            Sensor(f[p..], if n > 0 && g[1] == 0x13 && g[2] == START
                           then Reading(true, Be16(g[9], g[10]), Be16(g[9], g[10]) as real) else r)
  {
    hide Feed, Sum, ParseAm1002;
    if n == 0 {
      FeedNothing(Sensor(f[p..], r));
    } else {
      FrameStep(p, f, f, r);
      StaysAt(p, f);
      RotationRead(f, p, r);
      PacketsDoNotMatter(Am1002, Sensor(f[p..], r), f, Joined(Repeat(f, n - 1)));
      assert Repeat(f, n)[1..] == Repeat(f, n - 1);
      StuckAt(f, p, n - 1, ParseAm1002(Rotation(f, p), r));
    }
  }

  lemma StaysAt(p: nat, f: seq<byte>)
    requires 0 < p < FRAME == |f| && f[p] == START
    ensures Next(p, f) == p
  {
    assert f[p..][0] == START;
  }

  // A rotation of a valid frame has its sum, so that only the header decides.
  lemma RotationRead(f: seq<byte>, p: nat, r: Reading)
    requires ValidFrame(f) && p < FRAME && f[p] == START
    ensures var g := Rotation(f, p);
            ParseAm1002(g, r) == if g[1] == 0x13 && g[2] == START
                                 then Reading(true, Be16(g[9], g[10]), Be16(g[9], g[10]) as real) else r
  {
    hide Sum, Feed;
    var g := Rotation(f, p);
    SumAppend(f[p..], f[..p]);
    SumAppend(f[..p], f[p..]);
    assert f[..p] + f[p..] == f;
    FrameAcceptedIff(r, g);
    FrameIsGathered([], r, g);
    assert [] + g == g;
  }

  // --- The start octet inside every header ---

  // The reading after a run of frames for a receiver that stands at their third octet.
  function LateReading(last: seq<byte>, frames: seq<seq<byte>>, r: Reading): Reading
    requires ValidFrame(last) && ValidFrames(frames)
    decreases |frames|
  {
    if frames == [] then r
    else
      assert frames[0] in frames;
      var now := if last[3] == 0x13 && last[4] == START
                 then Reading(true, Be16(last[11], last[12]), Be16(last[11], last[12]) as real) else r;
      LateReading(frames[0], frames[1..], now)
  }

  /** The third octet of every header is a start octet too, so that whoever joins any stream of
      valid frames at the second or third octet never aligns: it keeps the last frame from its
      third octet on, and reads two other octets whenever a second header follows the first. */
  lemma JoinedAtThirdOctet(first: seq<byte>, j: nat, frames: seq<seq<byte>>, r: Reading)
    requires ValidFrame(first) && 1 <= j <= 2 && ValidFrames(frames)
    ensures Feed(Am1002, Sensor([], r), first[j..] + Joined(frames)) ==
            Sensor(LastOf(first, frames)[2..], LateReading(first, frames, r))
  {
    hide Feed, Sum;
    JoinStep(first, j, r);
    SecondIsNoStart(first, j);
    PacketsDoNotMatter(Am1002, Sensor([], r), first[j..], Joined(frames));
    AtThirdOctet(first, frames, r);
  }

  lemma SecondIsNoStart(f: seq<byte>, j: nat)
    requires ValidFrame(f) && 1 <= j <= 2
    ensures Next(j, f) == 2
  {
    assert f[j..][2 - j] == START;
    if j == 1 { assert f[1..][0] == 0x13; }
  }

  lemma {:induction false} AtThirdOctet(last: seq<byte>, frames: seq<seq<byte>>, r: Reading)
    requires ValidFrame(last) && ValidFrames(frames)
    ensures Feed(Am1002, Sensor(last[2..], r), Joined(frames)) ==
            Sensor(LastOf(last, frames)[2..], LateReading(last, frames, r))
    decreases |frames|
  {
    hide Feed, Sum, ParseAm1002;
    if frames == [] {
      FeedNothing(Sensor(last[2..], r));
    } else {
      var f := frames[0];
      assert f in frames;
      FrameStep(2, last, f, r);
      StaysAt(2, f);
      assert Block(2, last, f) == Rotation(last, 2);
      RotationRead(last, 2, r);
      PacketsDoNotMatter(Am1002, Sensor(last[2..], r), f, Joined(frames[1..]));
      AtThirdOctet(f, frames[1..], ParseAm1002(Rotation(last, 2), r));
    }
  }
}
