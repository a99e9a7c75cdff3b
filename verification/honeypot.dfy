/** The honeypot's control surface: start and stop, configuration, statistics, the admission
    pipeline for new connections and the cadence of the stale-connection sweep. */
module Honeypot {
  import opened Esp
  import opened Text

  const MaxListeningPorts: nat := 6
  const MaxConcurrentConnections: u32 := 6
  const ConnectionTimeoutMs: u32 := 10000

  /** `honeypot_config_t`; `ports` is the fixed array of `MAX_LISTENING_PORTS` entries. */
  datatype Config = Config(ports: seq<u16>, portCount: u8, maxConnections: u32,
                           connectionTimeoutMs: u32, enableLogging: bool, enableRemoteUpload: bool)

  /** The configuration the firmware boots with. */
  const DefaultConfig: Config :=
    Config([80, 23, 21, 1883, 8080, 2323], 6, MaxConcurrentConnections, ConnectionTimeoutMs, true, false)

  /** `honeypot_stats_t`: 32-bit counters and the time the counting started. */
  datatype Stats = Stats(totalConnections: u32, attacksLogged: u32, rateLimited: u32,
                         httpAttacks: u32, telnetAttacks: u32, ftpAttacks: u32, mqttAttacks: u32,
                         startTime: int)

  const ZeroStats: Stats := Stats(0, 0, 0, 0, 0, 0, 0, 0)

  /** The module's static state: the configuration, the statistics, `honeypot_running`, whether
      `honeypot_task_handle` holds a task, and the task loop's `last_cleanup` tick. */
  datatype State = State(config: Config, stats: Stats, running: bool, hasTask: bool, lastCleanup: u32)

  const BootState: State := State(DefaultConfig, ZeroStats, false, false, 0)

  /** The task handle is set exactly while the honeypot runs. Whether the task itself is still
      alive is not part of the model. */
  predicate Consistent(s: State) {
    s.running <==> s.hasTask
  }

  datatype Step = Step(err: EspErr, state: State)

  // ----- Start and stop -----

  /** `honeypot_start`. `taskCreated` is the verdict of `xTaskCreate`, which this model does not
      see. Starting a running honeypot is a no-op that succeeds; a failed task creation leaves
      the honeypot stopped. */
  function Start(s: State, taskCreated: bool): (r: Step)
    requires Consistent(s)
    ensures Consistent(r.state)
    ensures s.running ==> r == Step(EspOk, s)
    ensures !s.running && !taskCreated ==> r == Step(EspFail, s)
    ensures r.err == EspOk <==> r.state.running
    ensures r.state.config == s.config && r.state.stats == s.stats && r.state.lastCleanup == s.lastCleanup
  {
    if s.running then Step(EspOk, s)
    else if !taskCreated then Step(EspFail, s)
    else Step(EspOk, s.(running := true, hasTask := true))
  }

  /** `honeypot_stop`: always succeeds and always leaves the honeypot stopped with no task.
      Closing the listening sockets is a side effect outside this model. */
  function Stop(s: State): (r: Step)
    requires Consistent(s)
    ensures r.err == EspOk && !r.state.running && !r.state.hasTask
    ensures !s.running ==> r.state == s
    ensures r.state.config == s.config && r.state.stats == s.stats && r.state.lastCleanup == s.lastCleanup
  {
    if !s.running then Step(EspOk, s)
    else Step(EspOk, s.(running := false, hasTask := false))
  }

  /** Stopping twice is stopping once; once started, starting again changes nothing. */
  lemma StartStopIdempotent(s: State, created: bool, again: bool)
    requires Consistent(s)
    ensures Stop(Stop(s).state) == Stop(s)
    ensures var t := Start(s, created).state; t.running ==> Start(t, again) == Step(EspOk, t)
  {
  }

  /** Whatever the task verdict, a start followed by a stop ends stopped, and a successful start
      followed by a stop returns to where it began. */
  lemma StartThenStop(s: State, created: bool)
    requires Consistent(s) && !s.running
    ensures Stop(Start(s, created).state).state == s
  {
  }

  // ----- Configuration and statistics -----

  /** `honeypot_reset_stats`: every counter to zero, the start time to `now`. */
  function ResetStats(s: State, now: int): (r: State)
    ensures r.stats == ZeroStats.(startTime := now)
    ensures r.config == s.config && r.running == s.running && r.hasTask == s.hasTask
    ensures r.lastCleanup == s.lastCleanup
  {
    s.(stats := Stats(0, 0, 0, 0, 0, 0, 0, now))
  }

  /** A second reset forgets the first: only the latest reset time remains, and nothing counted
      before either reset survives. */
  lemma ResetTwice(s: State, t1: int, t2: int)
    ensures ResetStats(ResetStats(s, t1), t2) == ResetStats(s, t2)
  {
  }

  /** `honeypot_set_config`: a missing argument (`None`, the NULL pointer) is rejected and changes
      nothing; otherwise the whole struct is replaced. */
  function SetConfig(s: State, c: Option<Config>): (r: Step)
    ensures c.None? ==> r == Step(ErrInvalidArg, s)
    ensures c.Some? ==> r.err == EspOk && r.state == s.(config := c.value)
  {
    match c
    case None => Step(ErrInvalidArg, s)
    case Some(v) => Step(EspOk, s.(config := v))
  }

  datatype ConfigRead = ConfigRead(err: EspErr, config: Option<Config>)

  /** `honeypot_get_config`: `outPresent` is whether the caller passed a buffer. */
  function GetConfig(s: State, outPresent: bool): (r: ConfigRead)
    ensures !outPresent ==> r == ConfigRead(ErrInvalidArg, None)
    ensures outPresent ==> r == ConfigRead(EspOk, Some(s.config))
  {
    if outPresent then ConfigRead(EspOk, Some(s.config)) else ConfigRead(ErrInvalidArg, None)
  }

  /** Setting a configuration and reading it back gives exactly that configuration; a rejected
      set leaves the previous configuration readable. */
  lemma SetThenGet(s: State, c: Option<Config>)
    ensures c.Some? ==> GetConfig(SetConfig(s, c).state, true) == ConfigRead(EspOk, c)
    ensures c.None? ==> GetConfig(SetConfig(s, c).state, true) == GetConfig(s, true)
  {
  }

  // ----- Admission of a new connection -----

  datatype Verdict = RateLimited | AtCapacity | AddFailed | Admitted

  /** `handle_incoming_connection`. The three inputs are the verdicts of the rate limiter, of the
      socket manager's capacity check and of adding the connection, in the order the source
      asks them. Only a rate-limited source and a fully admitted connection are counted. */
  function Admit(st: Stats, rateOk: bool, canAccept: bool, addOk: bool): (r: (Verdict, Stats))
    ensures r.0 == Admitted <==> rateOk && canAccept && addOk
    ensures r.0 == RateLimited <==> !rateOk
    ensures r.0 == RateLimited ==> r.1 == st.(rateLimited := Inc32(st.rateLimited))
    ensures r.0 == Admitted ==> r.1 == st.(totalConnections := Inc32(st.totalConnections))
    ensures r.0 == AtCapacity || r.0 == AddFailed ==> r.1 == st
  {
    if !rateOk then (RateLimited, st.(rateLimited := Inc32(st.rateLimited)))
    else if !canAccept then (AtCapacity, st)
    else if !addOk then (AddFailed, st)
    else (Admitted, st.(totalConnections := Inc32(st.totalConnections)))
  }

  /** The rate limiter is asked first: for a rate-limited source the capacity and add verdicts
      make no difference. */
  lemma RateLimitDecidesFirst(st: Stats, c1: bool, a1: bool, c2: bool, a2: bool)
    ensures Admit(st, false, c1, a1) == Admit(st, false, c2, a2)
  {
  }

  /** The verdicts for a run of connection attempts. */
  datatype Attempt = Attempt(rateOk: bool, canAccept: bool, addOk: bool)

  function AdmitAll(st: Stats, xs: seq<Attempt>): Stats
    decreases |xs|
  {
    if |xs| == 0 then st
    else AdmitAll(Admit(st, xs[0].rateOk, xs[0].canAccept, xs[0].addOk).1, xs[1..])
  }

  function CountAdmitted(xs: seq<Attempt>): nat {
    if |xs| == 0 then 0
    else (if xs[0].rateOk && xs[0].canAccept && xs[0].addOk then 1 else 0) + CountAdmitted(xs[1..])
  }

  function CountRateLimited(xs: seq<Attempt>): nat {
    if |xs| == 0 then 0 else (if !xs[0].rateOk then 1 else 0) + CountRateLimited(xs[1..])
  }

  /** Over any run of attempts, `total_connections` grows by the number admitted and
      `rate_limited` by the number rate-limited, both modulo 2^32; nothing else changes. */
  lemma {:induction false} AdmitAllCounts(st: Stats, xs: seq<Attempt>)
    ensures var r := AdmitAll(st, xs);
            && r.totalConnections as int == (st.totalConnections as int + CountAdmitted(xs)) % Two32
            && r.rateLimited as int == (st.rateLimited as int + CountRateLimited(xs)) % Two32
            && r.(totalConnections := st.totalConnections, rateLimited := st.rateLimited) == st
    decreases |xs|
  {
    if |xs| > 0 {
      var st1 := Admit(st, xs[0].rateOk, xs[0].canAccept, xs[0].addOk).1;
      AdmitAllCounts(st1, xs[1..]);
    }
  }

  // ----- Per-service attack counters -----

  datatype Service = Http | Telnet | Ftp | Mqtt

  /** The service a port is counted under, if any. */
  function ServiceOf(port: u16): Option<Service> {
    if port == 80 || port == 8080 then Some(Http)
    else if port == 23 || port == 2323 then Some(Telnet)
    else if port == 21 then Some(Ftp)
    else if port == 1883 then Some(Mqtt)
    else None
  }

  function Counter(st: Stats, sv: Service): u32 {
    match sv
    case Http => st.httpAttacks
    case Telnet => st.telnetAttacks
    case Ftp => st.ftpAttacks
    case Mqtt => st.mqttAttacks
  }

  /** `update_statistics`: one more attack logged, and one more for the port's service. */
  function UpdateStatistics(st: Stats, port: u16): (r: Stats)
    ensures r.attacksLogged == Inc32(st.attacksLogged)
    ensures forall sv :: Counter(r, sv) == if ServiceOf(port) == Some(sv) then Inc32(Counter(st, sv)) else Counter(st, sv)
    ensures r.totalConnections == st.totalConnections && r.rateLimited == st.rateLimited
    ensures r.startTime == st.startTime
  {
    var st1 := st.(attacksLogged := Inc32(st.attacksLogged));
    if port == 80 || port == 8080 then st1.(httpAttacks := Inc32(st.httpAttacks))
    else if port == 23 || port == 2323 then st1.(telnetAttacks := Inc32(st.telnetAttacks))
    else if port == 21 then st1.(ftpAttacks := Inc32(st.ftpAttacks))
    else if port == 1883 then st1.(mqttAttacks := Inc32(st.mqttAttacks))
    else st1
  }

  /** Every default listening port is counted under some service, and every service has a
      default port. */
  lemma DefaultPortsClassified()
    ensures forall i :: 0 <= i < |DefaultConfig.ports| ==> ServiceOf(DefaultConfig.ports[i]).Some?
    ensures forall sv :: exists i :: 0 <= i < |DefaultConfig.ports| && ServiceOf(DefaultConfig.ports[i]) == Some(sv)
  {
    var ps := DefaultConfig.ports;
    assert |ps| == 6 && ps[0] == 80 && ps[1] == 23 && ps[2] == 21 && ps[3] == 1883;
    forall sv ensures exists i :: 0 <= i < |ps| && ServiceOf(ps[i]) == Some(sv) {
      var i := match sv case Http => 0 case Telnet => 1 case Ftp => 2 case Mqtt => 3;
      assert ServiceOf(ps[i]) == Some(sv);
    }
  }

  // ----- The stale-connection sweep -----

  /** The sweep interval in milliseconds. */
  const CleanupIntervalMs: u32 := 5000

  /** `pdMS_TO_TICKS(ms)` at a tick rate of `hz`: `ms * hz / 1000` in 32-bit tick arithmetic. */
  function MsToTicks(ms: u32, hz: nat): (r: u32)
    requires 1 <= hz <= 1000
    ensures ms as int * hz < Two32 ==> r as int == ms as int * hz / 1000
  {
    (((ms as int * hz) % Two32) / 1000) as u32
  }

  /** The test in the task loop: more ticks than the interval since the last sweep, measured
      with wrapping `TickType_t` subtraction. */
  predicate CleanupDue(now: u32, last: u32, hz: nat)
    requires 1 <= hz <= 1000
  {
    Sub32(now, last) > MsToTicks(CleanupIntervalMs, hz)
  }

  datatype Sweep = Sweep(swept: bool, state: State)

  /** One pass of the cadence check: when due, sweep and record `now` as the last sweep;
      otherwise change nothing. */
  function CleanupTick(s: State, now: u32, hz: nat): (r: Sweep)
    requires 1 <= hz <= 1000
    ensures r.swept <==> Sub32(now, s.lastCleanup) as int > CleanupIntervalMs as int * hz / 1000
    ensures r.swept ==> r.state == s.(lastCleanup := now)
    ensures !r.swept ==> r.state == s
  {
    if CleanupDue(now, s.lastCleanup, hz) then Sweep(true, s.(lastCleanup := now)) else Sweep(false, s)
  }

  /** The wrapping subtraction measures true elapsed ticks across a wrap of the tick counter: a
      sweep is due after `e` ticks exactly when `e` exceeds the interval, wherever the counter
      was. */
  lemma CleanupDueAcrossWrap(s: State, e: nat, hz: nat)
    requires 1 <= hz <= 1000 && e < Two32
    ensures var now := ((s.lastCleanup as int + e) % Two32) as u32;
            (CleanupTick(s, now, hz).swept <==> e > CleanupIntervalMs as int * hz / 1000)
  {
    var now := ((s.lastCleanup as int + e) % Two32) as u32;
    assert Sub32(now, s.lastCleanup) as int == e;
  }

  /** Two sweeps in a row are more than the interval apart. */
  lemma SweepsSpacedOut(s: State, t1: u32, t2: u32, hz: nat)
    requires 1 <= hz <= 1000
    requires CleanupTick(s, t1, hz).swept
    requires CleanupTick(CleanupTick(s, t1, hz).state, t2, hz).swept
    ensures Sub32(t2, t1) as int > CleanupIntervalMs as int * hz / 1000
  {
  }
}
