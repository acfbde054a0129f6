/** The ADC task: pipelined SPI reads of eight channels, a constant-time min/max tracker over
    windows of 1000 samples, the 10-sample UDP period, and the ticks of the 2 ms timer.
    Voltages are real numbers. */
module Adc {
  import Calendar
  import WallClock

  const CHANNELS: nat := 8
  const WINDOW: nat := 1000 // ADC_WINDOW_MS / ADC_SAMPLE_MS
  const PERIOD: nat := 10 // ADC_UDP_TX_INTERVAL_MS / ADC_SAMPLE_MS

  // --- One conversion ---

  // Bits 12..1 of a result word, sign-extended.
  function Code(raw: nat): int {
    var data12 := raw / 2 % 4096;
    if data12 >= 2048 then data12 - 4096 else data12
  }

  // ad7327_result_to_volts
  function Volts(raw: nat): real {
    Code(raw) as real * (10.0 / 2048.0)
  }

  // The word the converter sends for a code of channel ch.
  function ResultWord(ch: nat, code: int): nat
    requires ch < CHANNELS && -2048 <= code < 2048
  {
    ch * 8192 + (if code < 0 then code + 4096 else code) * 2
  }

  /** The conversion recovers every code whatever the channel bits say, at 10 V for 2048 steps, and
      voltages lie within the range of the part. */
  lemma VoltsOfWord(ch: nat, code: int, raw: nat)
    requires ch < CHANNELS && -2048 <= code < 2048
    ensures Code(ResultWord(ch, code)) == code
    ensures Volts(8192 * ch + 2 * (if code < 0 then code + 4096 else code)) * 2048.0 == code as real * 10.0
    ensures -10.0 <= Volts(raw) < 10.0
  {
    var c := if code < 0 then code + 4096 else code;
    assert ResultWord(ch, code) / 2 == ch * 4096 + c;
    assert (ch * 4096 + c) % 4096 == c;
    assert -2048 <= Code(raw) <= 2047;
  }

  // --- The read-ahead pipeline ---

  // Transfer k fails or returns word(k, ch), ch being the channel addressed one transfer before.
  datatype SpiEnv = SpiEnv(fails: nat -> bool, word: (nat, nat) -> nat)

  function ChannelCtrl(ch: nat): nat
    requires ch < CHANNELS
  {
    0x8010 + ch * 1024
  }

  // Bits 12..10 of a control word.
  function Address(ctrl: nat): (ch: nat)
    ensures ch < CHANNELS
  {
    ctrl / 1024 % 8
  }

  class Spi {
    const env: SpiEnv
    var count: nat
    var addressed: nat

    constructor (env: SpiEnv, addressed: nat)
      ensures this.env == env && count == 0
    {
      this.env, this.count, this.addressed := env, 0, addressed;
    }

    method Transfer(ctrl: nat) returns (ok: bool, rx: nat)
      modifies this
      ensures count == old(count) + 1
      ensures ok <==> !env.fails(old(count))
      ensures ok ==> rx == env.word(old(count), old(addressed)) && addressed == Address(ctrl)
    {
      ok := !env.fails(count);
      rx := env.word(count, addressed);
      count := count + 1;
      if ok { addressed := Address(ctrl); }
    }

    /** ad7327_read_all: nine transfers, the first result thrown away. Channel i's conversion
        lands in slot i, whatever the chip was addressing before. */
    method ReadAll(volts: array<real>) returns (ok: bool)
      requires volts.Length == CHANNELS
      modifies this, volts
      ensures ok <==> forall k :: old(count) <= k < old(count) + 9 ==> !env.fails(k)
      ensures ok ==> count == old(count) + 9
      ensures ok ==> forall i :: 0 <= i < CHANNELS ==> volts[i] == Volts(env.word(old(count) + i + 1, i))
    {
      var rx;
      ghost var base := count;
      ok, rx := Transfer(ChannelCtrl(0));
      if !ok {
        assert env.fails(base);
        return;
      }
      for i := 1 to CHANNELS
        invariant count == base + i && addressed == i - 1
        invariant forall k :: base <= k < base + i ==> !env.fails(k)
        invariant forall j :: 0 <= j < i - 1 ==> volts[j] == Volts(env.word(base + j + 1, j))
      {
        assert Address(ChannelCtrl(i)) == i;
        ok, rx := Transfer(ChannelCtrl(i));
        if !ok {
          assert env.fails(base + i);
          return;
        }
        volts[i - 1] := Volts(rx);
      }
      ok, rx := Transfer(ChannelCtrl(0));
      if !ok {
        assert env.fails(base + 8);
        return;
      }
      volts[7] := Volts(rx);
    }
  }

  // --- The tracker against the history ---

  type Sample = s: seq<real> | |s| == CHANNELS witness seq(8, _ => 0.0)

  function Min(a: real, b: real): real { if b < a then b else a }
  function Max(a: real, b: real): real { if b > a then b else a }

  // Extremes of channel c over the samples from index `from` on.
  function MinSince(h: seq<Sample>, from: nat, c: nat): (m: real)
    requires from < |h| && c < CHANNELS
    ensures forall i :: from <= i < |h| ==> m <= h[i][c]
    ensures exists i :: from <= i < |h| && m == h[i][c]
  {
    var n := |h| - 1;
    if from == n then h[n][c]
    else
      var m := MinSince(h[..n], from, c);
      Min(m, h[n][c])
  }

  function MaxSince(h: seq<Sample>, from: nat, c: nat): (m: real)
    requires from < |h| && c < CHANNELS
    ensures forall i :: from <= i < |h| ==> m >= h[i][c]
    ensures exists i :: from <= i < |h| && m == h[i][c]
  {
    var n := |h| - 1;
    if from == n then h[n][c]
    else
      var m := MaxSince(h[..n], from, c);
      Max(m, h[n][c])
  }

  // First sample that counts once n have been taken: the last one before the current window,
  // or the very first.
  function Start(n: nat): nat {
    if n < WINDOW then 0 else n / WINDOW * WINDOW - 1
  }

  // What get_datetime_ms returns at uptime now.
  function Stamp(clock: WallClock.Clock, now: nat): (Calendar.DateTime, nat) {
    var (sec, ms) := WallClock.Now(clock, now);
    (Calendar.Civil(sec), ms)
  }

  class Tracker {
    const runningMin: array<real>
    const runningMax: array<real>
    const raw: array<real>
    const minVal: array<real>
    const maxVal: array<real>
    var windowCount: nat
    var udpCount: nat
    var udpFrozen: nat
    var sampleCount: nat
    var hasSample: bool
    var trigger: nat // the count of the semaphore that wakes the UDP task
    var datetime: Calendar.DateTime
    var msec: nat
    ghost var hist: seq<Sample> // every good sample so far
    ghost var stamps: seq<(Calendar.DateTime, nat)> // and when it was published

    ghost predicate Shape()
      reads this
    {
      && runningMin.Length == runningMax.Length == raw.Length == minVal.Length == maxVal.Length == CHANNELS
      && runningMin != runningMax && runningMin != raw && runningMin != minVal && runningMin != maxVal
      && runningMax != raw && runningMax != minVal && runningMax != maxVal
      && raw != minVal && raw != maxVal && minVal != maxVal
    }

    // The counters after |hist| samples.
    ghost predicate Counters()
      reads this
    {
      var n := |hist|;
      && windowCount == n % WINDOW && udpCount == n % PERIOD
      && udpFrozen == (if n < PERIOD then 0 else PERIOD)
      && hasSample == (n > 0)
      && (n > 0 ==> sampleCount == (n - 1) % PERIOD + 1)
      && trigger <= 1 && |stamps| == n
    }

    // The extremes still being accumulated.
    ghost predicate Running()
      requires Shape()
      reads this, runningMin, runningMax
    {
      forall c :: 0 <= c < CHANNELS ==>
        runningMin[c] == (if hist == [] then 999.0 else MinSince(hist, Start(|hist|), c))
        && runningMax[c] == (if hist == [] then -999.0 else MaxSince(hist, Start(|hist|), c))
    }

    // The snapshot: published before the window turns over.
    ghost predicate Published()
      requires Shape()
      reads this, raw, minVal, maxVal
    {
      hist != [] ==>
        && stamps != [] && (datetime, msec) == stamps[|stamps| - 1]
        && forall c :: 0 <= c < CHANNELS ==>
          && raw[c] == hist[|hist| - 1][c]
          && minVal[c] == MinSince(hist, Start(|hist| - 1), c)
          && maxVal[c] == MaxSince(hist, Start(|hist| - 1), c)
    }

    ghost predicate Valid()
      reads this, runningMin, runningMax, raw, minVal, maxVal
    {
      Shape() && Counters() && Running() && Published()
    }

    constructor ()
      ensures Valid() && hist == []
    {
      runningMin := new real[CHANNELS](_ => 999.0);
      runningMax := new real[CHANNELS](_ => -999.0);
      raw, minVal, maxVal := new real[CHANNELS], new real[CHANNELS], new real[CHANNELS];
      windowCount, udpCount, udpFrozen, sampleCount, trigger := 0, 0, 0, 0, 0;
      hasSample := false;
      datetime, msec := Calendar.DateTime(0, 0, 0, 0, 0, 0), 0;
      hist, stamps := [], [];
    }

    method TakeStamp(wall: WallClock.Wall, now: nat)
      modifies this`datetime, this`msec
      ensures (datetime, msec) == Stamp(wall.View(), now)
    {
      hide Calendar.Civil, WallClock.Now;
      datetime, msec := wall.GetDatetimeMs(now);
    }

    // adc_publish_sample, at uptime now
    method PublishSample(volts: seq<real>, wall: WallClock.Wall, now: nat)
      requires Shape() && Running() && |volts| == CHANNELS
      requires forall c :: 0 <= c < CHANNELS ==> -10.0 <= volts[c] <= 10.0
      modifies this`sampleCount, this`hasSample, this`hist, this`datetime, this`msec, this`stamps,
               runningMin, runningMax, raw, minVal, maxVal
      ensures hist == old(hist) + [volts] && hasSample && sampleCount == udpCount
      ensures stamps == old(stamps) + [Stamp(wall.View(), now)]
      ensures Published()
      ensures forall c :: 0 <= c < CHANNELS ==> runningMin[c] == minVal[c] && runningMax[c] == maxVal[c]
    {
      hide MinSince, MaxSince, Stamp;
      for i := 0 to CHANNELS
        invariant hist == old(hist) && stamps == old(stamps)
        invariant forall c :: i <= c < CHANNELS ==>
                    runningMin[c] == old(runningMin[c]) && runningMax[c] == old(runningMax[c])
        invariant forall c :: 0 <= c < i ==>
                    && runningMin[c] == minVal[c] == Min(old(runningMin[c]), volts[c])
                    && runningMax[c] == maxVal[c] == Max(old(runningMax[c]), volts[c])
                    && raw[c] == volts[c]
      {
        var v := volts[i];
        if v < runningMin[i] {
          runningMin[i] := v;
        }
        if v > runningMax[i] {
          runningMax[i] := v;
        }
        raw[i] := v;
        minVal[i] := runningMin[i];
        maxVal[i] := runningMax[i];
      }
      sampleCount := udpCount;
      TakeStamp(wall, now);
      hasSample := true;
      forall c | 0 <= c < CHANNELS ensures
          var lo := if hist == [] then 999.0 else MinSince(hist, Start(|hist|), c);
          var hi := if hist == [] then -999.0 else MaxSince(hist, Start(|hist|), c);
          && MinSince(hist + [volts], Start(|hist|), c) == Min(lo, volts[c])
          && MaxSince(hist + [volts], Start(|hist|), c) == Max(hi, volts[c])
      { OneMoreSample(hist, volts, c); }
      hist, stamps := hist + [volts], stamps + [(datetime, msec)];
    }

    // adc_begin_next_window
    method BeginNextWindow(volts: seq<real>)
      requires Shape() && |volts| == CHANNELS
      modifies this`windowCount, runningMin, runningMax
      ensures windowCount == 0
      ensures forall c :: 0 <= c < CHANNELS ==> runningMin[c] == volts[c] && runningMax[c] == volts[c]
    {
      for i := 0 to CHANNELS
        invariant forall c :: 0 <= c < i ==> runningMin[c] == volts[c] && runningMax[c] == volts[c]
      {
        runningMin[i] := volts[i];
        runningMax[i] := volts[i];
      }
      windowCount := 0;
    }

    /** adc_process_one_sample: a failed read changes nothing; a good one is appended to the
        history, and every published and running value is again what the history says. */
    method ProcessOneSample(spi: Spi, wall: WallClock.Wall, now: nat) returns (good: bool)
      requires Valid()
      modifies this, runningMin, runningMax, raw, minVal, maxVal, spi
      ensures Valid()
      ensures good <==> forall k :: old(spi.count) <= k < old(spi.count) + 9 ==> !spi.env.fails(k)
      ensures !good ==> hist == old(hist) && stamps == old(stamps) && trigger == old(trigger)
      ensures good ==> stamps == old(stamps) + [Stamp(wall.View(), now)]
      ensures good ==> trigger == if |hist| % 10 == 0 then 1 else old(trigger)
      ensures good ==> |hist| == |old(hist)| + 1 && hist[..|old(hist)|] == old(hist)
      ensures good ==> forall c :: 0 <= c < CHANNELS ==>
                hist[|old(hist)|][c] == Volts(spi.env.word(old(spi.count) + c + 1, c))
    {
      hide MinSince, MaxSince, Volts, Stamp;
      var buf := new real[CHANNELS];
      good := spi.ReadAll(buf);
      if !good {
        return;
      }
      var volts := buf[..];
      forall c | 0 <= c < CHANNELS ensures -10.0 <= volts[c] <= 10.0 {
        VoltsOfWord(c, 0, spi.env.word(old(spi.count) + c + 1, c));
      }
      Accept(volts, wall, now);
    }

    // What follows a good read.
    method Accept(volts: seq<real>, wall: WallClock.Wall, now: nat)
      requires Valid() && |volts| == CHANNELS
      requires forall c :: 0 <= c < CHANNELS ==> -10.0 <= volts[c] <= 10.0
      modifies this, runningMin, runningMax, raw, minVal, maxVal
      ensures Valid() && hist == old(hist) + [volts] && stamps == old(stamps) + [Stamp(wall.View(), now)]
      ensures trigger == if |hist| % 10 == 0 then 1 else old(trigger)
    {
      hide MinSince, MaxSince, Stamp, Start, Min, Max;
      ghost var n := |hist|;
      if udpCount < 0xFFFF {
        udpCount := udpCount + 1;
      }
      windowCount := windowCount + 1;
      PublishSample(volts, wall, now);
      StartAdvances(n);
      if windowCount >= WINDOW {
        BeginNextWindow(volts);
        forall c | 0 <= c < CHANNELS
          ensures MinSince(hist, n, c) == volts[c] == MaxSince(hist, n, c)
        { OneSample(hist, c); }
      }
      if udpCount >= PERIOD {
        udpFrozen := udpCount;
        udpCount := 0;
        trigger := 1; // a semaphore with limit 1
      }
    }

    /** k_sem_take of the UDP task, during which the ADC task goes on: one sample per tick, at the
        uptimes given, up to the limit of the wait. The trigger is taken exactly when it was given
        before or a period is completed meanwhile, and then at the sample that completes it. */
    method AwaitTrigger(spi: Spi, wall: WallClock.Wall, ticks: seq<nat>) returns (got: bool, waited: nat)
      requires Valid()
      modifies this, runningMin, runningMax, raw, minVal, maxVal, spi
      ensures Valid() && trigger == 0
      ensures old(hist) <= hist && |hist| <= |old(hist)| + waited && waited <= |ticks|
      ensures got <==> old(trigger) == 1 || |hist| / 10 > |old(hist)| / 10
      ensures old(trigger) == 1 ==> hist == old(hist) && waited == 0
      ensures got && old(trigger) == 0 ==> |hist| % 10 == 0 && |hist| / 10 == |old(hist)| / 10 + 1
      ensures !got ==> waited == |ticks|
    {
      hide MinSince, MaxSince, Stamp, Start, Volts;
      waited := 0;
      while waited < |ticks| && trigger == 0
        invariant Valid() && waited <= |ticks|
        invariant old(hist) <= hist && |hist| <= |old(hist)| + waited
        invariant old(trigger) == 1 ==> trigger == 1 && hist == old(hist) && waited == 0
        invariant trigger == 0 ==> |hist| / PERIOD == |old(hist)| / PERIOD
        invariant trigger <= 1
        invariant trigger == 1 && old(trigger) == 0 ==>
                    |hist| % PERIOD == 0 && |hist| / PERIOD == |old(hist)| / PERIOD + 1
        decreases |ticks| - waited
      {
        ghost var n := |hist|;
        var _ := ProcessOneSample(spi, wall, ticks[waited]);
        PeriodAdvances(n);
        waited := waited + 1;
      }
      got := trigger > 0;
      trigger := 0;
    }

    // adc_get_latest
    method GetLatest()
      returns (ok: bool, lo: seq<real>, now: seq<real>, hi: seq<real>, count: nat, at: (Calendar.DateTime, nat))
      requires Valid()
      ensures ok <==> hist != []
      ensures ok ==> |stamps| == |hist| && at == stamps[|hist| - 1]
      ensures ok ==> InScope(|hist|, Start(|hist| - 1))
      ensures ok ==> |lo| == |now| == |hi| == CHANNELS && count == (if |hist| < 10 then 0 else 10)
      ensures ok ==> forall c :: 0 <= c < CHANNELS ==>
                && now[c] == hist[|hist| - 1][c]
                && lo[c] == MinSince(hist, Start(|hist| - 1), c)
                && hi[c] == MaxSince(hist, Start(|hist| - 1), c)
                && lo[c] <= now[c] <= hi[c]
    {
      if !hasSample {
        return false, [], [], [], 0, (datetime, msec);
      }
      PublishedScope(|hist|);
      return true, minVal[..], raw[..], maxVal[..], udpFrozen, (datetime, msec);
    }
  }

  // The running extremes, with the sentinels in front, absorb one more sample.
  lemma OneMoreSample(h: seq<Sample>, x: Sample, c: nat)
    requires c < CHANNELS && -10.0 <= x[c] <= 10.0
    ensures Start(|h|) <= |h| && (h != [] ==> Start(|h|) < |h|)
    ensures MinSince(h + [x], Start(|h|), c) == Min(if h == [] then 999.0 else MinSince(h, Start(|h|), c), x[c])
    ensures MaxSince(h + [x], Start(|h|), c) == Max(if h == [] then -999.0 else MaxSince(h, Start(|h|), c), x[c])
  {
    assert (h + [x])[..|h|] == h;
  }

  lemma StartAdvances(n: nat)
    ensures (n + 1) % WINDOW == 0 ==> Start(n + 1) == n && n % WINDOW == WINDOW - 1
    ensures (n + 1) % WINDOW != 0 ==> Start(n + 1) == Start(n) && (n + 1) % WINDOW == n % WINDOW + 1
    ensures (n + 1) % PERIOD == if n % PERIOD == PERIOD - 1 then 0 else n % PERIOD + 1
  {}

  lemma OneSample(h: seq<Sample>, c: nat)
    requires h != [] && c < CHANNELS
    ensures MinSince(h, |h| - 1, c) == h[|h| - 1][c] == MaxSince(h, |h| - 1, c)
  {}

  // The samples from the given one on, of k: the current window of at most 1000 and, but for the
  // first window, the last sample of the window before it.
  predicate InScope(k: nat, from: nat) {
    if k <= 1000 then from == 0 < k
    else (from + 1) % 1000 == 0 && 2 <= k - from <= 1001
  }

  /** What a reader sees after the k-th good sample. */
  lemma PublishedScope(k: nat)
    requires k > 0
    ensures InScope(k, Start(k - 1))
  {}

  lemma PeriodAdvances(n: nat)
    ensures (n + 1) % PERIOD == 0 ==> (n + 1) / PERIOD == n / PERIOD + 1
    ensures (n + 1) % PERIOD != 0 ==> (n + 1) / PERIOD == n / PERIOD
  {}

  // --- Timer ticks ---

  const SEM_LIMIT: nat := 127
  const WORD: nat := 0x1_0000_0000

  datatype Event = Tick | Take

  // lost is the 32-bit counter of the firmware; the others count without bound.
  datatype Ticks = Ticks(pending: nat, lost: nat, taken: nat)

  function StepTicks(t: Ticks, e: Event): Ticks {
    match e
    case Tick => if t.pending >= SEM_LIMIT then t.(lost := (t.lost + 1) % WORD) else t.(pending := t.pending + 1)
    case Take => if t.pending == 0 then t else t.(pending := t.pending - 1, taken := t.taken + 1)
  }

  function RunTicks(t: Ticks, es: seq<Event>): Ticks
    decreases |es|
  {
    if es == [] then t else RunTicks(StepTicks(t, es[0]), es[1..])
  }

  function CountTicks(es: seq<Event>): nat {
    if es == [] then 0 else (if es[0] == Tick then 1 else 0) + CountTicks(es[1..])
  }

  class SampleSem {
    var pending: nat
    var giveFail: nat
    ghost var taken: nat

    ghost function View(): Ticks
      reads this
    {
      Ticks(pending, giveFail, taken)
    }

    constructor ()
      ensures View() == Ticks(0, 0, 0)
    {
      pending, giveFail, taken := 0, 0, 0;
    }

    // adc_sample_timer_handler, in interrupt context
    method TimerHandler()
      modifies this
      ensures View() == StepTicks(old(View()), Tick)
    {
      if pending >= SEM_LIMIT {
        giveFail := (giveFail + 1) % WORD;
      } else {
        pending := pending + 1;
      }
    }

    // k_sem_take without waiting
    method TakeNoWait() returns (ok: bool)
      modifies this
      ensures View() == StepTicks(old(View()), Take) && (ok <==> old(pending) > 0)
    {
      ok := pending > 0;
      if ok {
        pending := pending - 1;
        taken := taken + 1;
      }
    }
  }

  /** In every interleaving of timer and task each tick was taken, is pending, or was counted as
      lost (the counter being 32 bits wide), and a tick is lost only with 127 pending. */
  lemma {:induction false} TicksAccounted(t: Ticks, es: seq<Event>)
    requires t.pending <= SEM_LIMIT && t.lost < WORD
    ensures var t' := RunTicks(t, es);
            && t'.pending <= SEM_LIMIT && t'.lost < WORD
            && (t.pending + t.lost + t.taken + CountTicks(es)) % WORD == (t'.pending + t'.lost + t'.taken) % WORD
            && (CountTicks(es) <= 127 - t.pending ==> t'.lost == t.lost)
    decreases |es|
  {
    if es != [] {
      var u := StepTicks(t, es[0]);
      TicksAccounted(u, es[1..]);
      if es[0] == Tick && t.pending >= SEM_LIMIT {
        WrapAdds(t.lost + 1, t.pending + t.taken + CountTicks(es[1..]));
      }
    }
  }

  lemma WrapAdds(a: nat, b: nat)
    ensures (a % WORD + b) % WORD == (a + b) % WORD
  {}
}
