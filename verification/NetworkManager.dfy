/** The network manager as single assignments: its own task, the TCP task that notifies it, and
    reboots, after which only the persisted boot mode survives. */
module NetworkManager {
  import opened Options

  datatype Iface = Wifi | Eth
  const BOOT_WIFI: nat := 0
  const BOOT_ETH: nat := 1
  const TCP_FAIL_LIMIT: nat := 5

  // The build and the two IP profiles, as far as the console does not change them. forced is the
  // mode of FORCE_ETH_BOOT_MODE or FORCE_WIFI_BOOT_MODE.
  datatype Config = Config(wifiBuild: bool, defaultMode: Iface, forced: Option<Iface>, wifiIp: string, ethIp: string)

  // The flash storage as a boot finds it: not to be mounted, of another schema version, or usable.
  datatype Storage = Absent | Outdated | Ready

  function Profile(cfg: Config, i: Iface): string {
    if i == Wifi then cfg.wifiIp else cfg.ethIp
  }

  // strncpy into a 16-octet array with a forced terminator
  function Stored(ip: string): string {
    if |ip| > 15 then ip[..15] else ip
  }

  // Values above BOOT_ETH are treated as WiFi.
  function ModeOf(raw: nat): Iface {
    if raw == BOOT_ETH then Eth else Wifi
  }

  function RawOf(i: Iface): nat {
    if i == Eth then BOOT_ETH else BOOT_WIFI
  }

  function Other(i: Iface): Iface {
    if i == Eth then Wifi else Eth
  }

  // config_nvs_load: the mode in a flash content, if it holds a legal one.
  function StoredMode(cfg: Config, nvs: Option<nat>): Iface {
    if nvs.Some? && nvs.value <= BOOT_ETH then ModeOf(nvs.value) else cfg.defaultMode
  }

  // The mode of a boot.
  function BootMode(cfg: Config, nvs: Option<nat>, st: Storage): Iface {
    if !cfg.wifiBuild then Eth
    else if st != Ready then cfg.defaultMode
    else if cfg.forced.Some? then cfg.forced.value
    else StoredMode(cfg, nvs)
  }

  // What the flash holds after a boot has read it: an outdated one is erased, and a forced mode
  // that differs is written back.
  function Kept(cfg: Config, nvs: Option<nat>, st: Storage): Option<nat> {
    if st == Absent then nvs
    else if st == Outdated then None
    else if cfg.wifiBuild && cfg.forced.Some? && StoredMode(cfg, nvs) != cfg.forced.value then
      Some(RawOf(cfg.forced.value))
    else nvs
  }

  // What the local address array holds: a string, or a copy in progress.
  datatype Address = Torn | Text(ip: string)

  // The task: top of the cycle, an attempt, the assignments of set_active, the service loop, the
  // assignments of clear_active, and the three steps of giving up.
  datatype Pc =
    | Top | Attempt(i: Iface)
    | CopyIp(i: Iface) | EndIp(i: Iface) | SetIface(i: Iface) | SetReady(i: Iface)
    | Serving(i: Iface)
    | ClearReady | ClearIface | ClearIp
    | Flip(i: Iface) | Persist(i: Iface) | Restart(i: Iface, saved: bool)

  // The TCP task between its atomic operations.
  datatype TcpPc = Quiet | Counted(n: nat) | Cleared | OkCounted

  // next: the storage as the following boot finds it.
  datatype Reboot = Reboot(failed: Iface, saved: bool, next: Storage)

  // raw is net_boot_mode in RAM, nvs the flash content. bootMode and bootNvs (the mode and the flash
  // content at boot), cycles (the mode of every cycle since boot), streak (connect failures since
  // the last success) and reboots are history.
  datatype State = State(
    cfg: Config, storage: Storage, pc: Pc, ready: bool, active: Option<Iface>, ip: Address, raw: nat, nvs: Option<nat>,
    tcp: TcpPc, fails: nat, force: bool,
    bootMode: Iface, bootNvs: Option<nat>, cycles: seq<Iface>, streak: nat, reboots: seq<Reboot>)

  function Boot(cfg: Config, nvs: Option<nat>, st: Storage, reboots: seq<Reboot>): State {
    var (mode, kept) := (BootMode(cfg, nvs, st), Kept(cfg, nvs, st));
    State(cfg, st, Top, false, None, Text(""), RawOf(mode), kept, Quiet, 0, false, mode, kept, [], 0, reboots)
  }

  datatype Step =
    | BeginCycle
    | Try(usable: bool)
    | Assign // the next assignment of set_active, clear_active or of giving up
    | Leave(linkUp: bool) // one poll of the service loop that ends it
    | Save(ok: bool)
    | ColdReboot(next: Storage)
    | TcpFailed | TcpFailChecked | TcpFailReset(wifiReady: bool) | TcpOk | TcpOkCleared

  predicate Enabled(s: State, t: Step) {
    match t
    case BeginCycle => s.pc == Top
    case Try(_) => s.pc.Attempt?
    case Assign =>
      || s.pc.CopyIp? || s.pc.EndIp? || s.pc.SetIface? || s.pc.SetReady?
      || s.pc.ClearReady? || s.pc.ClearIface? || s.pc.ClearIp? || s.pc.Flip?
    // The WiFi loop also ends when the force flag could be taken.
    case Leave(linkUp) => s.pc.Serving? && (!linkUp || (s.pc.i == Wifi && s.force))
    case Save(ok) => s.pc.Persist? && (ok ==> s.storage != Absent)
    case ColdReboot(_) => s.pc.Restart?
    case TcpFailed => s.tcp == Quiet
    case TcpFailChecked => s.tcp.Counted?
    case TcpFailReset(_) => s.tcp == Cleared
    case TcpOk => s.tcp == Quiet
    case TcpOkCleared => s.tcp == OkCounted
  }

  // The mode a cycle runs in, after the range check.
  function CycleMode(s: State): Iface {
    if s.cfg.wifiBuild then ModeOf(s.raw) else Eth
  }

  function Next(s: State, t: Step): State
    requires Enabled(s, t)
  {
    match t
    case BeginCycle =>
      var m := CycleMode(s);
      s.(pc := Attempt(m), cycles := s.cycles + [m],
         raw := if s.cfg.wifiBuild && s.raw > BOOT_ETH then BOOT_WIFI else s.raw)
    case Try(usable) =>
      var i := s.pc.i;
      if usable then s.(pc := CopyIp(i)) else s.(pc := if s.cfg.wifiBuild then Flip(i) else Top)
    case Assign =>
      (match s.pc
       case CopyIp(i) => s.(ip := Torn, pc := EndIp(i))
       case EndIp(i) => s.(ip := Text(Stored(Profile(s.cfg, i))), pc := SetIface(i))
       case SetIface(i) => s.(active := Some(i), pc := SetReady(i))
       case SetReady(i) => s.(ready := true, pc := Serving(i))
       case ClearReady => s.(ready := false, pc := ClearIface)
       case ClearIface => s.(active := None, pc := ClearIp)
       case ClearIp => s.(ip := Text(""), pc := Top)
       case Flip(i) => s.(raw := RawOf(Other(i)), pc := Persist(i)))
    case Leave(linkUp) => s.(pc := ClearReady, force := if s.pc.i == Wifi && linkUp then false else s.force)
    case Save(ok) => s.(nvs := if ok then Some(s.raw) else s.nvs, pc := Restart(s.pc.i, ok))
    case ColdReboot(next) => Boot(s.cfg, s.nvs, next, s.reboots + [Reboot(s.pc.i, s.pc.saved, next)])
    case TcpFailed => s.(fails := s.fails + 1, streak := s.streak + 1, tcp := Counted(s.fails + 1))
    case TcpFailChecked =>
      if s.cfg.wifiBuild && s.tcp.n >= TCP_FAIL_LIMIT && s.active == Some(Wifi) then s.(fails := 0, tcp := Cleared)
      else s.(tcp := Quiet)
    case TcpFailReset(wifiReady) => s.(tcp := Quiet, force := if wifiReady then s.force else true)
    case TcpOk => s.(fails := 0, tcp := OkCounted)
    case TcpOkCleared => s.(force := false, streak := 0, tcp := Quiet)
  }

  predicate IsRun(s: State, steps: seq<Step>)
    decreases |steps|
  {
    steps == [] || (Enabled(s, steps[0]) && IsRun(Next(s, steps[0]), steps[1..]))
  }

  function After(s: State, steps: seq<Step>): State
    requires IsRun(s, steps)
    decreases |steps|
  {
    if steps == [] then s else After(Next(s, steps[0]), steps[1..])
  }

  // --- What every single assignment keeps ---

  // Whoever sees ready also sees an interface and that interface's own address.
  predicate ReadyMeansConnected(s: State) {
    s.ready ==> s.active.Some? && s.ip == Text(Stored(Profile(s.cfg, s.active.value)))
  }

  // The values of ready, active and ip at each point of the task.
  predicate Assigned(s: State) {
    match s.pc
    case Serving(i) => s.ready && s.active == Some(i) && s.ip == Text(Stored(Profile(s.cfg, i)))
    case ClearReady => ReadyMeansConnected(s)
    case SetReady(i) => !s.ready && s.active == Some(i) && s.ip == Text(Stored(Profile(s.cfg, i)))
    case SetIface(i) => !s.ready && s.active == None && s.ip == Text(Stored(Profile(s.cfg, i)))
    case EndIp(_) => !s.ready && s.active == None
    case ClearIface => !s.ready
    case ClearIp => !s.ready && s.active == None
    case _ => !s.ready && s.active == None && s.ip == Text("")
  }

  predicate ModeFixed(s: State) {
    var m := s.bootMode;
    && (!s.cfg.wifiBuild ==> m == Eth)
    && (forall c :: c in s.cycles ==> c == m)
    && (!s.pc.Persist? && !s.pc.Restart? ==> CycleMode(s) == m && s.nvs == s.bootNvs)
    && (s.pc.Attempt? || s.pc.Flip? || s.pc.Persist? || s.pc.Restart? ==> s.pc.i == m)
    && (s.pc.Flip? || s.pc.Persist? || s.pc.Restart? ==> s.cfg.wifiBuild)
    && (s.pc.Persist? ==> s.raw == RawOf(Other(s.pc.i)) && s.nvs == s.bootNvs)
    && (s.pc.Restart? ==> s.nvs == if s.pc.saved then Some(RawOf(Other(s.pc.i))) else s.bootNvs)
  }

  predicate ForceEarned(s: State) {
    && s.fails <= s.streak && (s.tcp == OkCounted ==> s.fails == 0)
    && (s.tcp.Counted? ==> s.tcp.n <= s.streak)
    && (s.tcp == Cleared ==> s.streak >= TCP_FAIL_LIMIT)
    && (s.force ==> s.streak >= TCP_FAIL_LIMIT)
  }

  predicate Inv(s: State) {
    Assigned(s) && ModeFixed(s) && ForceEarned(s)
  }

  lemma InvAtBoot(cfg: Config, nvs: Option<nat>, st: Storage, reboots: seq<Reboot>)
    ensures Inv(Boot(cfg, nvs, st, reboots))
  {}

  lemma InvStep(s: State, t: Step)
    requires Inv(s) && Enabled(s, t)
    ensures Inv(Next(s, t))
  {
    hide Next, Enabled, Assigned, ModeFixed, ForceEarned;
    AssignedStep(s, t);
    ModeStep(s, t);
    ForceStep(s, t);
  }

  lemma AssignedStep(s: State, t: Step)
    requires Assigned(s) && Enabled(s, t)
    ensures Assigned(Next(s, t))
  {}

  lemma ModeStep(s: State, t: Step)
    requires ModeFixed(s) && Enabled(s, t)
    ensures ModeFixed(Next(s, t))
  {}

  lemma ForceStep(s: State, t: Step)
    requires ForceEarned(s) && Enabled(s, t)
    ensures ForceEarned(Next(s, t))
  {}

  /** After every assignment of every interleaving: ready implies an active interface with its
      own profile address, all cycles since boot ran in the mode of the boot, and a forced WiFi
      reconnect was earned by at least five connect failures in a row. */
  lemma {:induction false} EveryAssignment(s: State, steps: seq<Step>)
    requires Inv(s) && IsRun(s, steps)
    ensures Inv(After(s, steps))
    ensures var e := After(s, steps);
            && ReadyMeansConnected(e)
            && (e.ready && e.active == Some(Wifi) ==>
                  e.ip == Text(if |e.cfg.wifiIp| <= 15 then e.cfg.wifiIp else e.cfg.wifiIp[..15]))
            && (e.ready && e.active == Some(Eth) ==>
                  e.ip == Text(if |e.cfg.ethIp| <= 15 then e.cfg.ethIp else e.cfg.ethIp[..15]))
            && (forall c :: c in e.cycles ==> c == e.bootMode)
            && (!e.cfg.wifiBuild ==> e.bootMode == Eth)
            && (e.force ==> e.streak >= 5)
    decreases |steps|
  {
    hide Next, Enabled;
    if steps != [] {
      InvStep(s, steps[0]);
      EveryAssignment(Next(s, steps[0]), steps[1..]);
    }
  }

  /** An attempt that succeeds ends in the service loop with the interface's own address ... */
  lemma AttemptSucceeds(s: State, i: Iface)
    requires s.pc == Attempt(i)
    ensures var run := [Try(true), Assign, Assign, Assign, Assign];
            && IsRun(s, run)
            && After(s, run) == s.(pc := Serving(i), ready := true, active := Some(i),
                                   ip := Text(Stored(if i == Wifi then s.cfg.wifiIp else s.cfg.ethIp)))
  {
    var up := Next(s, Try(true));
    var (a, b) := (Next(up, Assign), Next(Next(up, Assign), Assign));
    var c := Next(b, Assign);
    Unroll(s, [Try(true), Assign, Assign, Assign, Assign], [s, up, a, b, c, Next(c, Assign)]);
  }

  /** ... one that fails makes an Ethernet-only build start over ... */
  lemma EthernetTriesAgain(s: State, i: Iface)
    requires s.pc == Attempt(i) && !s.cfg.wifiBuild
    ensures IsRun(s, [Try(false)]) && After(s, [Try(false)]) == s.(pc := Top)
  {
    Unroll(s, [Try(false)], [s, Next(s, Try(false))]);
  }

  /** ... and a WiFi build flip the mode, store it if it can, and reboot. */
  lemma GivesUp(s: State, i: Iface, ok: bool, next: Storage)
    requires s.pc == Attempt(i) && s.cfg.wifiBuild && (ok ==> s.storage != Absent)
    ensures var run := [Try(false), Assign, Save(ok), ColdReboot(next)];
            && IsRun(s, run)
            && After(s, run) == Boot(s.cfg, if ok then Some(if i == Wifi then 1 else 0) else s.nvs, next,
                                     s.reboots + [Reboot(i, ok, next)])
  {
    var down := Next(s, Try(false));
    var flipped := Next(down, Assign);
    var saved := Next(flipped, Save(ok));
    Unroll(s, [Try(false), Assign, Save(ok), ColdReboot(next)],
           [s, down, flipped, saved, Next(saved, ColdReboot(next))]);
  }

  /** When the service loop ends everything is taken down again; a forced reconnect is used up by
      the end of a WiFi loop whose link is up. */
  lemma ServiceEnds(s: State, linkUp: bool)
    requires s.pc.Serving? && Enabled(s, Leave(linkUp))
    ensures var run := [Leave(linkUp), Assign, Assign, Assign];
            && IsRun(s, run)
            && After(s, run) == s.(pc := Top, ready := false, active := None, ip := Text(""),
                                   force := s.force && !(s.pc == Serving(Wifi) && linkUp))
  {
    var a := Next(s, Leave(linkUp));
    var b := Next(a, Assign);
    var c := Next(b, Assign);
    Unroll(s, [Leave(linkUp), Assign, Assign, Assign], [s, a, b, c, Next(c, Assign)]);
  }

  // Five failures in a row that WiFi can answer for.
  predicate Enough(s: State) {
    s.cfg.wifiBuild && s.fails >= 4 && s.active == Some(Wifi)
  }

  /** A failed connect counts ... */
  lemma ConnectFailed(s: State)
    requires s.tcp == Quiet && !Enough(s)
    ensures IsRun(s, [TcpFailed, TcpFailChecked])
    ensures After(s, [TcpFailed, TcpFailChecked]) == s.(fails := s.fails + 1, streak := s.streak + 1)
  {
    var a := Next(s, TcpFailed);
    Unroll(s, [TcpFailed, TcpFailChecked], [s, a, Next(a, TcpFailChecked)]);
  }

  /** ... and the fifth in a row, or a later one, on an active WiFi starts the count again and asks
      for a reconnect if the WiFi is not ready. */
  lemma FifthConnectFailed(s: State, wifiReady: bool)
    requires s.tcp == Quiet && Enough(s)
    ensures IsRun(s, [TcpFailed, TcpFailChecked, TcpFailReset(wifiReady)])
    ensures After(s, [TcpFailed, TcpFailChecked, TcpFailReset(wifiReady)]) ==
            s.(fails := 0, streak := s.streak + 1, force := s.force || !wifiReady)
  {
    var a := Next(s, TcpFailed);
    var b := Next(a, TcpFailChecked);
    Unroll(s, [TcpFailed, TcpFailChecked, TcpFailReset(wifiReady)], [s, a, b, Next(b, TcpFailReset(wifiReady))]);
  }

  /** A successful one clears the count and the request. */
  lemma ConnectSucceeded(s: State)
    requires s.tcp == Quiet
    ensures IsRun(s, [TcpOk, TcpOkCleared])
    ensures After(s, [TcpOk, TcpOkCleared]) == s.(fails := 0, streak := 0, force := false)
  {
    var a := Next(s, TcpOk);
    Unroll(s, [TcpOk, TcpOkCleared], [s, a, Next(a, TcpOkCleared)]);
  }

  // Checking a run against the states it passes through.
  lemma {:induction false} Unroll(s: State, steps: seq<Step>, states: seq<State>)
    requires |states| == |steps| + 1 && states[0] == s
    requires forall i :: 0 <= i < |steps| ==> Enabled(states[i], steps[i]) && Next(states[i], steps[i]) == states[i + 1]
    ensures IsRun(s, steps) && After(s, steps) == states[|steps|]
    decreases |steps|
  {
    hide Enabled, Next;
    if steps != [] {
      Unroll(states[1], steps[1..], states[1..]);
    }
  }

  // --- Runs with reboots ---

  // The flash content and the mode of the boot that follows a history of reboots, the first boot
  // having found nvs in storage st.
  function Replay(cfg: Config, nvs: Option<nat>, st: Storage, log: seq<Reboot>): (Option<nat>, Iface) {
    if log == [] then (Kept(cfg, nvs, st), BootMode(cfg, nvs, st))
    else
      var r := log[|log| - 1];
      var (flash, mode) := Replay(cfg, nvs, st, log[..|log| - 1]);
      var flash' := if r.saved then Some(RawOf(Other(mode))) else flash;
      (Kept(cfg, flash', r.next), BootMode(cfg, flash', r.next))
  }

  // Every reboot so far was that of the mode its boot ran in.
  predicate FailedInOrder(cfg: Config, nvs: Option<nat>, st: Storage, log: seq<Reboot>) {
    forall i :: 0 <= i < |log| ==> log[i].failed == Replay(cfg, nvs, st, log[..i]).1
  }

  predicate History(cfg: Config, nvs: Option<nat>, st: Storage, s: State) {
    && s.cfg == cfg && FailedInOrder(cfg, nvs, st, s.reboots)
    && (s.bootNvs, s.bootMode) == Replay(cfg, nvs, st, s.reboots)
    && s.storage == StorageAt(st, s.reboots, |s.reboots|)
  }

  // The storage as boot i found it.
  function StorageAt(st: Storage, log: seq<Reboot>, i: nat): Storage
    requires i <= |log|
  {
    if i == 0 then st else log[i - 1].next
  }

  lemma HistoryStep(cfg: Config, nvs: Option<nat>, st: Storage, s: State, t: Step)
    requires Inv(s) && History(cfg, nvs, st, s) && Enabled(s, t)
    ensures History(cfg, nvs, st, Next(s, t))
  {
    hide Replay, FailedInOrder, Next, Assigned, ForceEarned;
    if t.ColdReboot? {
      RebootLogged(s, t);
      LogGrows(cfg, nvs, st, s.reboots, Reboot(s.pc.i, s.pc.saved, t.next));
    } else {
      NothingLogged(s, t);
    }
  }

  lemma NothingLogged(s: State, t: Step)
    requires Enabled(s, t) && !t.ColdReboot?
    ensures var s' := Next(s, t);
            && s'.cfg == s.cfg && s'.reboots == s.reboots && s'.storage == s.storage
            && s'.bootNvs == s.bootNvs && s'.bootMode == s.bootMode
  {}

  lemma RebootLogged(s: State, t: Step)
    requires Enabled(s, t) && t.ColdReboot?
    ensures var s' := Next(s, t);
            && s'.cfg == s.cfg && s'.reboots == s.reboots + [Reboot(s.pc.i, s.pc.saved, t.next)] && s'.storage == t.next
            && s'.bootNvs == Kept(s.cfg, s.nvs, t.next) && s'.bootMode == BootMode(s.cfg, s.nvs, t.next)
  {}

  lemma ReplayOneMore(cfg: Config, nvs: Option<nat>, st: Storage, log: seq<Reboot>, r: Reboot)
    ensures var (flash, mode) := Replay(cfg, nvs, st, log);
            var flash' := if r.saved then Some(RawOf(Other(mode))) else flash;
            Replay(cfg, nvs, st, log + [r]) == (Kept(cfg, flash', r.next), BootMode(cfg, flash', r.next))
  {
    assert (log + [r])[..|log|] == log;
  }

  lemma LogGrows(cfg: Config, nvs: Option<nat>, st: Storage, log: seq<Reboot>, r: Reboot)
    requires FailedInOrder(cfg, nvs, st, log) && r.failed == Replay(cfg, nvs, st, log).1
    ensures FailedInOrder(cfg, nvs, st, log + [r])
    ensures var flash := if r.saved then Some(RawOf(Other(r.failed))) else Replay(cfg, nvs, st, log).0;
            Replay(cfg, nvs, st, log + [r]) == (Kept(cfg, flash, r.next), BootMode(cfg, flash, r.next))
  {
    hide Replay, Kept, BootMode;
    var log' := log + [r];
    assert log'[..|log|] == log;
    ReplayOneMore(cfg, nvs, st, log, r);
    forall i | 0 <= i < |log'| ensures log'[i].failed == Replay(cfg, nvs, st, log'[..i]).1 {
      if i < |log| { assert log'[..i] == log[..i]; }
    }
  }

  lemma {:induction false} HistoryOfRun(cfg: Config, nvs: Option<nat>, st: Storage, s: State, steps: seq<Step>)
    requires Inv(s) && History(cfg, nvs, st, s) && IsRun(s, steps)
    ensures History(cfg, nvs, st, After(s, steps))
    decreases |steps|
  {
    hide Next, Enabled, History, Inv;
    if steps != [] {
      InvStep(s, steps[0]);
      HistoryStep(cfg, nvs, st, s, steps[0]);
      HistoryOfRun(cfg, nvs, st, Next(s, steps[0]), steps[1..]);
    }
  }

  // A boot that read the flash, if nothing is forced, ran in the mode the flash then names.
  lemma FlashNamesMode(cfg: Config, nvs: Option<nat>, st: Storage, log: seq<Reboot>)
    requires cfg.wifiBuild && cfg.forced.None? && StorageAt(st, log, |log|) != Absent
    ensures StoredMode(cfg, Replay(cfg, nvs, st, log).0) == Replay(cfg, nvs, st, log).1
  {}

  // What fails after reboot i.
  predicate NextFailure(cfg: Config, st: Storage, log: seq<Reboot>, i: nat)
    requires i + 1 < |log|
  {
    var (first, second) := (log[i].failed, log[i + 1].failed);
    if log[i].next != Ready then second == cfg.defaultMode
    else if cfg.forced.Some? then second == cfg.forced.value
    else if log[i].saved then second == Other(first)
    else StorageAt(st, log, i) != Absent ==> second == first
  }

  /** Over any run of a WiFi build from power-on, whatever the flash holds and whenever it fails:
      each reboot was caused by the mode of its boot failing, and the mode that fails next is the
      default one if the next boot cannot read the flash, else the forced one if there is one, else
      the other one if the flip was stored, else the same again unless its boot could not reach the
      flash. */
  lemma FailedModesLaw(cfg: Config, nvs: Option<nat>, st: Storage, steps: seq<Step>)
    requires cfg.wifiBuild && IsRun(Boot(cfg, nvs, st, []), steps)
    ensures var log := After(Boot(cfg, nvs, st, []), steps).reboots;
            && (log != [] ==> log[0].failed == if st != Ready then cfg.defaultMode
                                               else if cfg.forced.Some? then cfg.forced.value
                                               else if nvs == Some(0) then Wifi
                                               else if nvs == Some(1) then Eth else cfg.defaultMode)
            && forall i :: 0 <= i < |log| - 1 ==> NextFailure(cfg, st, log, i)
  {
    hide Next, Enabled, Inv, BootMode, Kept, NextFailure;
    var s := Boot(cfg, nvs, st, []);
    InvAtBoot(cfg, nvs, st, []);
    HistoryOfRun(cfg, nvs, st, s, steps);
    var log := After(s, steps).reboots;
    if log != [] { assert log[..0] == []; FirstMode(cfg, nvs, st); }
    forall i | 0 <= i < |log| - 1 ensures NextFailure(cfg, st, log, i) {
      FailuresFollow(cfg, nvs, st, log, i);
    }
  }

  lemma FirstMode(cfg: Config, nvs: Option<nat>, st: Storage)
    requires cfg.wifiBuild
    ensures BootMode(cfg, nvs, st) == if st != Ready then cfg.defaultMode
                                      else if cfg.forced.Some? then cfg.forced.value
                                      else if nvs == Some(0) then Wifi
                                      else if nvs == Some(1) then Eth else cfg.defaultMode
  {}

  lemma FailuresFollow(cfg: Config, nvs: Option<nat>, st: Storage, log: seq<Reboot>, i: nat)
    requires cfg.wifiBuild && FailedInOrder(cfg, nvs, st, log) && i + 1 < |log|
    ensures NextFailure(cfg, st, log, i)
  {
    hide Replay;
    var now := log[..i];
    ReplayOneMore(cfg, nvs, st, now, log[i]);
    assert log[..i + 1] == now + [log[i]];
    if cfg.forced.None? && StorageAt(st, log, i) != Absent {
      FlashNamesMode(cfg, nvs, st, now);
    }
  }

  /** So with usable storage at every boot two failed modes in a row differ exactly when the build
      forces none and the flip was stored: then failed modes strictly alternate. */
  lemma FailedModesAlternate(cfg: Config, nvs: Option<nat>, steps: seq<Step>)
    requires cfg.wifiBuild && IsRun(Boot(cfg, nvs, Ready, []), steps)
    requires forall r :: r in After(Boot(cfg, nvs, Ready, []), steps).reboots ==> r.next == Ready
    ensures var log := After(Boot(cfg, nvs, Ready, []), steps).reboots;
            forall i :: 0 <= i < |log| - 1 ==>
              (log[i + 1].failed == Other(log[i].failed) <==> cfg.forced.None? && log[i].saved)
  {
    hide Next, Enabled, Boot;
    FailedModesLaw(cfg, nvs, Ready, steps);
    var log := After(Boot(cfg, nvs, Ready, []), steps).reboots;
    forall i | 0 <= i < |log| - 1
      ensures log[i + 1].failed == Other(log[i].failed) <==> cfg.forced.None? && log[i].saved
    {
      assert NextFailure(cfg, Ready, log, i) && log[i] in log;
      if i > 0 { assert NextFailure(cfg, Ready, log, i - 1) && log[i - 1] in log; }
    }
  }

  /** An Ethernet-only build never reboots and never leaves Ethernet, whatever is stored. */
  lemma {:induction false} EthernetOnlyNeverReboots(s: State, steps: seq<Step>)
    requires Inv(s) && !s.cfg.wifiBuild && IsRun(s, steps)
    ensures After(s, steps).reboots == s.reboots && After(s, steps).nvs == s.nvs
    ensures forall c :: c in After(s, steps).cycles ==> c == Eth
    decreases |steps|
  {
    if steps != [] {
      InvStep(s, steps[0]);
      EthernetOnlyNeverReboots(Next(s, steps[0]), steps[1..]);
    }
  }
}
