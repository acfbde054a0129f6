/** The wall clock: set from the nine time octets of a SYNC body, read as an offset from the
    uptime at which it was set, and the gate that opens UDP traffic after the first SYNC. */
module WallClock {
  import opened Bytes
  import opened Calendar
  import opened GwError

  const BOOT_EPOCH_SEC: nat := 1735660800
  const WORD: nat := 0x1_0000_0000 // 2^32
  const DOUBLE_WORD: nat := 0x1_0000_0000_0000_0000 // 2^64

  datatype Clock = Clock(synced: bool, unixSec: nat, msec: nat, upMs: nat)

  const UNSYNCED: Clock := Clock(false, 0, 0, 0)

  // timeutil_timegm of the Zephyr library. For the twelve months it is the arithmetic of Timegm;
  // what it returns for other month octets is open.
  type TimeLib = DateTime -> int

  ghost predicate Conforms(lib: TimeLib) {
    forall t: DateTime :: 1 <= t.month <= 12 ==> lib(t) == Timegm(t)
  }

  // time_sync_from_tcp_timesync_body at uptime up
  function SyncFrom(lib: TimeLib, c: Clock, body: seq<byte>, up: nat): Clock {
    if |body| < TIME_LEN || lib(TimeOf(body)) == -1 then c
    else Clock(true, lib(TimeOf(body)) % DOUBLE_WORD, if MsecOf(body) <= 999 then MsecOf(body) else 0, up)
  }

  // get_now_unix_ms at uptime now: seconds, saturating at 32 bits once synced, and milliseconds.
  function Now(c: Clock, now: nat): (r: (nat, nat))
    ensures r.0 < WORD && r.1 < 1000
  {
    if c.synced then
      var total := c.msec + if now < c.upMs then 0 else now - c.upMs;
      var sec := (c.unixSec + total / 1000) % DOUBLE_WORD;
      (if sec > WORD - 1 then WORD - 1 else sec, total % 1000)
    else
      var up32 := now % WORD;
      (BOOT_EPOCH_SEC + up32 / 1000, up32 % 1000)
  }

  function Octets(t: DateTime, msec: nat): seq<byte>
    requires Valid(t) && t.year < 0x1_0000 && msec < 1000
  {
    PutBe16(t.year) + [t.month, t.day, t.hour, t.min, t.sec] + PutBe16(msec)
  }

  // time_encode_now_9
  function Encode9(c: Clock, now: nat): (s: seq<byte>)
    ensures |s| == TIME_LEN
  {
    var (sec, msec) := Now(c, now);
    CivilIsTimegmInverse(sec);
    YearOfWord(sec);
    Octets(Civil(sec), msec)
  }

  class Wall {
    var synced: bool
    var unixSec: nat
    var msec: nat
    var upMs: nat

    function View(): Clock
      reads this
    {
      Clock(synced, unixSec, msec, upMs)
    }

    constructor ()
      ensures View() == UNSYNCED
    {
      synced, unixSec, msec, upMs := false, 0, 0, 0;
    }

    method Sync(lib: TimeLib, body: seq<byte>, uptime: nat)
      modifies this
      ensures View() == SyncFrom(lib, old(View()), body, uptime)
    {
      if |body| < TIME_LEN {
        return;
      }
      var ms := MsecOf(body);
      var tu := lib(TimeOf(body));
      if tu == -1 {
        return;
      }
      synced := true;
      unixSec := tu % DOUBLE_WORD;
      msec := if ms <= 999 then ms else 0;
      upMs := uptime;
    }

    method GetNow(now: nat) returns (sec: nat, ms: nat)
      ensures (sec, ms) == Now(View(), now)
    {
      if synced {
        var delta := now - upMs;
        if delta < 0 {
          delta := 0;
        }
        var total := msec + delta;
        sec := (unixSec + total / 1000) % DOUBLE_WORD;
        ms := total % 1000;
        if sec > WORD - 1 {
          sec := WORD - 1;
        }
        return;
      }
      var up32 := now % WORD;
      return BOOT_EPOCH_SEC + up32 / 1000, up32 % 1000;
    }

    // get_datetime_ms
    method GetDatetimeMs(now: nat) returns (t: DateTime, ms: nat)
      ensures t == Civil(Now(View(), now).0) && ms == Now(View(), now).1
    {
      var sec;
      sec, ms := GetNow(now);
      t := SecondsToDatetime(sec);
    }

    // Writes the nine octets at the given offset of out.
    method EncodeNow9(now: nat, out: array<byte>, at: nat)
      requires at + TIME_LEN <= out.Length
      modifies out
      ensures out[at..at + TIME_LEN] == Encode9(View(), now)
      ensures forall i :: 0 <= i < out.Length && !(at <= i < at + TIME_LEN) ==> out[i] == old(out[i])
    {
      hide Civil, Timegm, Now;
      var sec, ms := GetNow(now);
      var t := SecondsToDatetime(sec);
      CivilIsTimegmInverse(sec);
      YearOfWord(sec);
      out[at], out[at + 1] := t.year / 256, t.year % 256;
      out[at + 2], out[at + 3] := t.month, t.day;
      out[at + 4], out[at + 5], out[at + 6] := t.hour, t.min, t.sec;
      out[at + 7], out[at + 8] := ms / 256, ms % 256;
      assert out[at..at + TIME_LEN] == Octets(t, ms);
    }
  }

  // --- Reading back what was set ---

  lemma OctetsOfBody(body: seq<byte>)
    requires |body| >= TIME_LEN && Valid(TimeOf(body)) && MsecOf(body) < 1000
    ensures Octets(TimeOf(body), MsecOf(body)) == body[..TIME_LEN]
  {
    var t := TimeOf(body);
    assert t.year / 256 == body[0] && t.year % 256 == body[1];
    assert MsecOf(body) / 256 == body[7] && MsecOf(body) % 256 == body[8];
  }

  lemma OctetsInjective(t: DateTime, ms: nat, body: seq<byte>)
    requires Valid(t) && t.year < 0x1_0000 && ms < 1000
    requires |body| >= TIME_LEN && Octets(t, ms) == body[..TIME_LEN]
    ensures TimeOf(body) == t && MsecOf(body) == ms
  {
    var s := Octets(t, ms);
    assert forall i :: 0 <= i < TIME_LEN ==> s[i] == body[i];
  }

  /** Setting the clock from a checked body and reading it at the same uptime returns the same
      nine octets exactly when the body names a day its month has. */
  lemma SyncThenEncode(lib: TimeLib, c: Clock, body: seq<byte>, up: nat)
    requires Conforms(lib) && SyncBodyCheck(body) == NONE
    ensures Encode9(SyncFrom(lib, c, body, up), up) == body[..TIME_LEN]
            <==> body[3] <= MonthDays(TimeOf(body).year, body[2])
  {
    hide Timegm, Civil, Valid, MonthDays, SyncBodyCheck, Octets, Be16, PutBe16;
    CheckedBody(body);
    var t := TimeOf(body);
    assert Now(SyncFrom(lib, c, body, up), up) == (Timegm(t), MsecOf(body));
    CivilIsTimegmInverse(Timegm(t));
    YearOfWord(Timegm(t));
    if Valid(t) {
      CivilOfTimegm(t);
      OctetsOfBody(body);
    } else if Octets(Civil(Timegm(t)), MsecOf(body)) == body[..TIME_LEN] {
      OctetsInjective(Civil(Timegm(t)), MsecOf(body), body);
    }
  }

  // --- The clock between two SYNCs ---

  function TotalMs(r: (nat, nat)): nat {
    r.0 * 1000 + r.1
  }

  // The second this clock should show at uptime now still fits in 32 bits.
  predicate InRange(c: Clock, now: nat)
    requires now >= c.upMs
  {
    c.unixSec + (c.msec + (now - c.upMs)) / 1000 < WORD
  }

  /** A synced clock advances by exactly the uptime that passed. */
  lemma ReadingAdvances(c: Clock, now: nat)
    requires c.synced && now >= c.upMs && InRange(c, now)
    ensures TotalMs(Now(c, now)) == c.unixSec * 1000 + c.msec + (now - c.upMs)
  {}

  /** At every uptime: the milliseconds since the SYNC count from those of its body, none before it,
      and the second stops at 2^32 - 1. */
  lemma SyncedReading(c: Clock, now: nat)
    requires c.synced && c.unixSec < WORD && c.msec < 1000 && now < DOUBLE_WORD
    ensures var ms := 1000 * c.unixSec + c.msec + (if now < c.upMs then 0 else now - c.upMs);
            Now(c, now) == (if ms < 1000 * 0x1_0000_0000 then ms / 1000 else 0xFFFF_FFFF, ms % 1000)
  {
    var delta := c.msec + if now < c.upMs then 0 else now - c.upMs;
    assert (1000 * c.unixSec + delta) / 1000 == c.unixSec + delta / 1000;
  }

  /** Before the first SYNC: the 32-bit uptime counted from 2024-12-31 16:00:00. */
  lemma UnsyncedReading(c: Clock, now: nat)
    requires !c.synced
    ensures TotalMs(Now(c, now)) == 1000 * Timegm(DateTime(2024, 12, 31, 16, 0, 0)) + now % 0x1_0000_0000
    ensures Now(c, now).1 == now % 0x1_0000_0000 % 1000
  {
    assert Days(2024, 12, 31) == 20088 by { KnownDay(); }
  }

  /** What is encoded is a real date with its milliseconds, and reads back as the reading. */
  lemma EncodedReadsBack(c: Clock, now: nat)
    ensures var s := Encode9(c, now);
            && |s| == 9 && Valid(TimeOf(s)) && Timegm(TimeOf(s)) == Now(c, now).0
            && Be16(s[7], s[8]) == Now(c, now).1
            && TimeOf(s) == DateTime(Be16(s[0], s[1]), s[2], s[3], s[4], s[5], s[6])
  {
    hide Civil, Timegm, Now, Valid;
    var (sec, ms) := Now(c, now);
    CivilIsTimegmInverse(sec);
    YearOfWord(sec);
    assert Encode9(c, now)[..TIME_LEN] == Encode9(c, now);
    OctetsInjective(Civil(sec), ms, Encode9(c, now));
  }

  /** So between two SYNCs it never runs backwards while the second fits in 32 bits ... */
  lemma NeverBackwards(c: Clock, now: nat, later: nat)
    requires c.synced && c.upMs <= now <= later && InRange(c, later)
    ensures TotalMs(Now(c, later)) - TotalMs(Now(c, now)) == later - now
  {
    ReadingAdvances(c, now);
    ReadingAdvances(c, later);
  }

  // No reading between uptimes from and end is below an earlier one.
  ghost predicate Monotone(c: Clock, from: nat, end: nat) {
    forall a: nat, b: nat :: from <= a <= b <= end ==> TotalMs(Now(c, a)) <= TotalMs(Now(c, b))
  }

  /** ... and only that long: at the very millisecond the second passes 2^32 - 1 it saturates while
      the milliseconds wrap, and the reading steps back. */
  lemma MonotoneIff(c: Clock, end: nat)
    requires c.synced && c.unixSec < WORD && c.msec < 1000 && c.upMs <= end
    ensures Monotone(c, c.upMs, end) <==> InRange(c, end)
  {
    hide Now;
    if InRange(c, end) {
      forall a: nat, b: nat | c.upMs <= a <= b <= end ensures TotalMs(Now(c, a)) <= TotalMs(Now(c, b)) {
        NeverBackwards(c, a, b);
      }
    } else {
      var b := c.upMs + 1000 * (WORD - c.unixSec) - c.msec;
      ReadingAdvances(c, b - 1);
      Saturated(c, b);
    }
  }

  lemma Saturated(c: Clock, b: nat)
    requires c.synced && c.unixSec < WORD && c.msec < 1000 && b == c.upMs + 1000 * (WORD - c.unixSec) - c.msec
    ensures Now(c, b) == (WORD - 1, 0)
  {
    assert c.msec + (b - c.upMs) == 1000 * (WORD - c.unixSec);
  }

  /** An unsynced clock shows the 32-bit uptime and steps back exactly when that wraps. */
  lemma UnsyncedMonotoneIff(c: Clock, end: nat)
    requires !c.synced
    ensures Monotone(c, 0, end) <==> end < WORD
  {
    if end >= WORD {
      assert TotalMs(Now(c, WORD)) < TotalMs(Now(c, WORD - 1));
    }
  }

  // --- The UDP gate ---

  datatype Gated = Gated(clock: Clock, open: bool)

  // sg_timesync_from_tcp_notify
  function Notify(lib: TimeLib, g: Gated, body: seq<byte>, up: nat): Gated {
    Gated(SyncFrom(lib, g.clock, body, up), true)
  }

  class SyncGate {
    const wall: Wall
    var timeOk: bool

    function View(): Gated
      reads this, wall
    {
      Gated(wall.View(), timeOk)
    }

    constructor ()
      ensures View() == Gated(UNSYNCED, false) && fresh(wall)
    {
      wall := new Wall();
      timeOk := false;
    }

    method Notified(lib: TimeLib, body: seq<byte>, uptime: nat)
      modifies this, wall
      ensures View() == Notify(lib, old(View()), body, uptime)
    {
      wall.Sync(lib, body, uptime);
      timeOk := true;
    }

    method UdpAllowed() returns (allowed: bool)
      ensures allowed == View().open
    {
      allowed := timeOk;
    }
  }

  /** The gate opens whatever becomes of the body, so that it implies a synced clock exactly
      when the clock was synced before or this body syncs it. */
  lemma OpenImpliesSyncedIff(lib: TimeLib, g: Gated, body: seq<byte>, up: nat)
    ensures var g' := Notify(lib, g, body, up);
            (g'.open ==> g'.clock.synced) <==>
            g.clock.synced || (|body| >= TIME_LEN && lib(TimeOf(body)) != -1)
  {}

  function NotifyAll(lib: TimeLib, g: Gated, syncs: seq<(seq<byte>, nat)>): Gated
    decreases |syncs|
  {
    if syncs == [] then g else NotifyAll(lib, Notify(lib, g, syncs[0].0, syncs[0].1), syncs[1..])
  }

  /** Over any run of SYNCs that passed the check, as all that reach the gate have, an open gate
      stays open and an open gate means a synced clock. */
  lemma {:induction false} GateOverRuns(lib: TimeLib, g: Gated, syncs: seq<(seq<byte>, nat)>)
    requires Conforms(lib) && forall s :: s in syncs ==> SyncBodyCheck(s.0) == NONE
    requires g.open ==> g.clock.synced
    ensures var g' := NotifyAll(lib, g, syncs);
            (g'.open <==> g.open || syncs != []) && (g'.open ==> g'.clock.synced)
    decreases |syncs|
  {
    if syncs != [] {
      CheckedBody(syncs[0].0);
      GateOverRuns(lib, Notify(lib, g, syncs[0].0, syncs[0].1), syncs[1..]);
    }
  }
}
