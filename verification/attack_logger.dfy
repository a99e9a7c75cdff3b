/** The attack logger: a fixed-capacity ring of records that overwrites the oldest entry
    once full, with newest-first read-out. */
module AttackLogger {
  import opened Esp
  import opened Text
  import opened AttackRecord

  /** `MAX_LOG_ENTRIES`. */
  const MaxLogEntries: nat := 100

  datatype LoggerStats = LoggerStats(totalLogged: nat, lastLogTime: int, startTime: int)

  /** The logger's module state: the record array, `buffer_head`, `buffer_tail`,
      `buffer_count` and its statistics. */
  datatype Logger = Logger(buffer: seq<AttackLog>, head: nat, tail: nat, count: nat, stats: LoggerStats)

  /** The ring invariant: the array has its fixed size, both indices lie in it, the count is
      bounded by the capacity and the head sits `count` slots after the tail. */
  predicate Valid(l: Logger) {
    && |l.buffer| == MaxLogEntries
    && l.head < MaxLogEntries
    && l.tail < MaxLogEntries
    && l.count <= MaxLogEntries
    && l.head == (l.tail + l.count) % MaxLogEntries
  }

  /** The retained records, oldest first: `count` slots starting at the tail. */
  function Contents(l: Logger): (r: seq<AttackLog>)
    requires Valid(l)
    ensures |r| == l.count
  {
    seq(l.count, i requires 0 <= i < l.count => l.buffer[(l.tail + i) % MaxLogEntries])
  }

  /** The zero-initialised static state before `attack_logger_init` runs. */
  const Boot: Logger := Logger(Zeros(MaxLogEntries), 0, 0, 0, LoggerStats(0, 0, 0))

  /** `n` zero-filled records. */
  function Zeros(n: nat): (r: seq<AttackLog>)
    ensures |r| == n
  {
    if n == 0 then [] else Zeros(n - 1) + [ZeroLog]
  }

  // ----- attack_logger_init -----

  datatype InitResult = InitResult(err: EspErr, logger: Logger)

  /** `attack_logger_init`, called once at boot on the boot state. `flashOk` is the verdict of the flash store's own initialisation;
      `loaded` is what the flash store copied into the first slots of the array, at most
      `MAX_LOG_ENTRIES` records since that is the bound it is given; `now` is `time(NULL)`. */
  function Init(flashOk: bool, loaded: seq<AttackLog>, now: int): (r: InitResult)
    requires |loaded| <= MaxLogEntries
    ensures !flashOk ==> r == InitResult(EspFail, Boot)
    ensures flashOk ==> r.err == EspOk && Valid(r.logger)
    ensures flashOk ==> Contents(r.logger) == loaded
    ensures flashOk ==> r.logger.stats == LoggerStats(0, 0, now)
  {
    if !flashOk then InitResult(EspFail, Boot)
    else
      ReloadContents(loaded, now);
      InitResult(EspOk, Reload(loaded, now))
  }

  /** The state after a successful reload: the loaded records fill the first slots, and only a
      non-empty load moves the head and the count. */
  function Reload(loaded: seq<AttackLog>, now: int): Logger
    requires |loaded| <= MaxLogEntries
  {
    Logger(loaded + Boot.buffer[|loaded|..],
           if |loaded| > 0 then |loaded| % MaxLogEntries else Boot.head,
           Boot.tail,
           if |loaded| > 0 then |loaded| else Boot.count,
           Boot.stats.(startTime := now))
  }

  lemma ReloadContents(loaded: seq<AttackLog>, now: int)
    requires |loaded| <= MaxLogEntries
    ensures Valid(Reload(loaded, now)) && Contents(Reload(loaded, now)) == loaded
    ensures Reload(loaded, now).stats == LoggerStats(0, 0, now)
  {
    var r := Reload(loaded, now);
    forall i | 0 <= i < |loaded| ensures Contents(r)[i] == loaded[i] {
      assert (0 + i) % MaxLogEntries == i;
    }
  }

  // ----- attack_logger_log -----

  lemma ModStep(a: nat, b: nat)
    requires a < b < a + MaxLogEntries
    ensures a % MaxLogEntries != b % MaxLogEntries
  {
  }

  lemma ModSucc(x: nat)
    ensures (x % MaxLogEntries + 1) % MaxLogEntries == (x + 1) % MaxLogEntries
  {
  }

  lemma StoreValid(l: Logger, e: AttackLog, now: int)
    requires Valid(l)
    ensures Valid(Store(l, e, now))
  {
    ModSucc(l.tail + l.count);
    if l.count == MaxLogEntries {
      ModSucc(l.tail);
    }
  }

  /** Storing into a ring with room appends the entry to the retained records. */
  lemma StoreAppends(l: Logger, e: AttackLog, now: int)
    requires Valid(l) && l.count < MaxLogEntries
    ensures Valid(Store(l, e, now))
    ensures Contents(Store(l, e, now)) == Contents(l) + [e]
  {
    StoreValid(l, e, now);
    var r := Store(l, e, now);
    forall i | 0 <= i < l.count ensures Contents(r)[i] == Contents(l)[i] {
      ModStep(l.tail + i, l.tail + l.count);
    }
  }

  /** Storing into a full ring drops the oldest record and appends the entry. */
  lemma StoreOverwrites(l: Logger, e: AttackLog, now: int)
    requires Valid(l) && l.count == MaxLogEntries
    ensures Valid(Store(l, e, now))
    ensures Contents(Store(l, e, now)) == Contents(l)[1..] + [e]
  {
    StoreValid(l, e, now);
    var N := MaxLogEntries;
    var r := Store(l, e, now);
    assert l.tail == l.head;
    forall i | 0 <= i < N ensures Contents(r)[i] == (Contents(l)[1..] + [e])[i] {
      var slot := (l.tail + 1 + i) % N;
      assert Contents(r)[i] == r.buffer[slot] by {
        ModSucc(l.tail);
        assert ((l.tail + 1) % N + i) % N == slot;
      }
      if i < N - 1 {
        ModStep(l.tail, l.tail + 1 + i);
        assert Contents(l)[i + 1] == l.buffer[slot];
      } else {
        assert slot == l.head;
      }
    }
  }

  /** Where an insert leaves the retained records: appended, and once full the oldest dropped. */
  lemma InsertContents(l: Logger, e: AttackLog, now: int)
    requires Valid(l)
    ensures Valid(Store(l, e, now))
    ensures Contents(Store(l, e, now)) ==
              if l.count < MaxLogEntries then Contents(l) + [e] else Contents(l)[1..] + [e]
  {
    if l.count < MaxLogEntries {
      StoreAppends(l, e, now);
    } else {
      StoreOverwrites(l, e, now);
    }
  }

  /** The raw store step of `attack_logger_log`: the record goes to the head slot, the head
      advances, and the tail advances too once the ring is full. */
  function Store(l: Logger, e: AttackLog, now: int): Logger
    requires Valid(l)
  {
    Logger(
      l.buffer[l.head := e],
      (l.head + 1) % MaxLogEntries,
      if l.count < MaxLogEntries then l.tail else (l.tail + 1) % MaxLogEntries,
      if l.count < MaxLogEntries then l.count + 1 else l.count,
      l.stats.(totalLogged := l.stats.totalLogged + 1, lastLogTime := now))
  }

  /** Storing one present entry keeps the ring invariant, appends the entry to the retained
      records and, once full, drops the oldest. */
  function Insert(l: Logger, e: AttackLog, now: int): (r: Logger)
    requires Valid(l)
    ensures Valid(r)
    ensures r.count == Min(l.count + 1, MaxLogEntries)
    ensures Contents(r) == if l.count < MaxLogEntries then Contents(l) + [e] else Contents(l)[1..] + [e]
    ensures r.stats == LoggerStats(l.stats.totalLogged + 1, now, l.stats.startTime)
  {
    InsertContents(l, e, now);
    Store(l, e, now)
  }

  datatype LogResult = LogResult(err: EspErr, logger: Logger)

  /** `attack_logger_log`: a missing entry (`None`, the NULL pointer) is rejected and changes
      nothing; otherwise the entry is stored. Persisting to flash and console output are side
      effects outside this model. */
  function Log(l: Logger, entry: Option<AttackLog>, now: int): (r: LogResult)
    requires Valid(l)
    ensures entry.None? ==> r == LogResult(ErrInvalidArg, l)
    ensures entry.Some? ==> r.err == EspOk && Valid(r.logger)
    ensures entry.Some? ==> r.logger.stats.totalLogged == l.stats.totalLogged + 1
    ensures entry.Some? ==> r.logger.count == Min(l.count + 1, MaxLogEntries)
    ensures entry.Some? ==> Contents(r.logger)[r.logger.count - 1] == entry.value
  {
    if entry.None? then LogResult(ErrInvalidArg, l)
    else LogResult(EspOk, Insert(l, entry.value, now))
  }

  /** Once the ring is full the head has caught up with the tail, and the next insert
      overwrites the oldest record's slot. */
  lemma FullRingOverwritesOldest(l: Logger, e: AttackLog, now: int)
    requires Valid(l) && l.count == MaxLogEntries
    ensures l.tail == l.head
    ensures Contents(l)[0] == l.buffer[l.head]
    ensures Insert(l, e, now).buffer[l.head] == e
    ensures Insert(l, e, now).tail == Insert(l, e, now).head
    ensures Contents(Insert(l, e, now)) == Contents(l)[1..] + [e]
  {
    assert (l.tail + 0) % MaxLogEntries == l.tail;
  }

  // ----- attack_logger_get_recent -----

  /** The newest `min(count, maxLogs)` records, newest first. */
  function Recent(l: Logger, maxLogs: nat): (r: seq<AttackLog>)
    requires Valid(l)
    ensures |r| == Min(l.count, maxLogs)
    ensures forall j :: 0 <= j < |r| ==> r[j] == Contents(l)[l.count - 1 - j]
  {
    seq(Min(l.count, maxLogs), j requires 0 <= j < Min(l.count, maxLogs) => Contents(l)[l.count - 1 - j])
  }

  lemma StepBack(x: nat)
    requires x >= 1
    ensures (if x % MaxLogEntries == 0 then MaxLogEntries - 1 else x % MaxLogEntries - 1) == (x - 1) % MaxLogEntries
  {
  }

  datatype RecentResult = RecentResult(err: EspErr, logs: seq<AttackLog>)

  /** `attack_logger_get_recent`: walks backwards from the head, copying `min(count, maxLogs)`
      records. `outputsPresent` is false when either output pointer is NULL. The logger is
      read, never changed. */
  method GetRecent(l: Logger, maxLogs: nat, outputsPresent: bool) returns (r: RecentResult)
    requires Valid(l)
    ensures !outputsPresent ==> r == RecentResult(ErrInvalidArg, [])
    ensures outputsPresent ==> r.err == EspOk && r.logs == Recent(l, maxLogs)
  {
    if !outputsPresent {
      return RecentResult(ErrInvalidArg, []);
    }
    var count := if l.count < maxLogs then l.count else maxLogs;
    if count == 0 {
      return RecentResult(EspOk, []);
    }
    var logs: seq<AttackLog> := [];
    var idx := l.head;
    var i := 0;
    while i < count
      invariant 0 <= i <= count
      invariant idx == (l.tail + l.count - i) % MaxLogEntries
      invariant |logs| == i
      invariant forall j :: 0 <= j < i ==> logs[j] == Contents(l)[l.count - 1 - j]
    {
      StepBack(l.tail + l.count - i);
      idx := if idx == 0 then MaxLogEntries - 1 else idx - 1;
      logs := logs + [l.buffer[idx]];
      i := i + 1;
    }
    return RecentResult(EspOk, logs);
  }

  // ----- attack_logger_clear / attack_logger_count -----

  /** `attack_logger_clear`: the ring is emptied and the counters zeroed, but the start time
      is kept. The records themselves stay in the array, unreachable. */
  function Clear(l: Logger): (r: Logger)
    requires Valid(l)
    ensures Valid(r) && Contents(r) == []
    ensures r.head == 0 && r.tail == 0 && r.count == 0
    ensures r.stats == LoggerStats(0, 0, l.stats.startTime)
    ensures r.buffer == l.buffer
  {
    l.(head := 0, tail := 0, count := 0, stats := l.stats.(totalLogged := 0, lastLogTime := 0))
  }

  /** `attack_logger_count`: the number of retained records, never above the capacity. */
  function Count(l: Logger): (r: nat)
    requires Valid(l)
    ensures r <= MaxLogEntries
    ensures r == |Contents(l)|
  {
    l.count
  }

  // ----- Histories of inserts -----

  /** The logger after storing `es` in order, all at time `now`. */
  function InsertAll(l: Logger, es: seq<AttackLog>, now: int): (r: Logger)
    requires Valid(l)
    ensures Valid(r)
    ensures r.stats.totalLogged == l.stats.totalLogged + |es|
    ensures r.count == Min(l.count + |es|, MaxLogEntries)
    decreases |es|
  {
    if |es| == 0 then l
    else Insert(InsertAll(l, es[..|es| - 1], now), es[|es| - 1], now)
  }

  /** The last `MAX_LOG_ENTRIES` elements of `s`, or all of them when there are fewer. */
  function LastN(s: seq<AttackLog>): (r: seq<AttackLog>)
    ensures |r| == Min(|s|, MaxLogEntries)
  {
    if |s| <= MaxLogEntries then s else s[|s| - MaxLogEntries..]
  }

  function Reverse<T>(s: seq<T>): (r: seq<T>)
    ensures |r| == |s|
    ensures forall i :: 0 <= i < |s| ==> r[i] == s[|s| - 1 - i]
  {
    seq(|s|, i requires 0 <= i < |s| => s[|s| - 1 - i])
  }

  /** A history of inserts retains exactly its last `MAX_LOG_ENTRIES` records, oldest first,
      whatever was retained before it and however often the ring wrapped. */
  lemma {:induction false} InsertAllContents(l: Logger, es: seq<AttackLog>, now: int)
    requires Valid(l)
    ensures Contents(InsertAll(l, es, now)) == LastN(Contents(l) + es)
    decreases |es|
  {
    if |es| == 0 {
      assert Contents(l) + es == Contents(l);
    } else {
      var front, e := es[..|es| - 1], es[|es| - 1];
      InsertAllContents(l, front, now);
      var x := Contents(l) + front;
      assert Contents(l) + es == x + [e];
      var m := InsertAll(l, front, now);
      LastNStep(x, e);
      if |x| >= MaxLogEntries {
        assert m.count == MaxLogEntries;
      }
    }
  }

  /** The window of the last entries moves by one when one more entry arrives. */
  lemma LastNStep(x: seq<AttackLog>, e: AttackLog)
    ensures |x| < MaxLogEntries ==> LastN(x + [e]) == LastN(x) + [e]
    ensures |x| >= MaxLogEntries ==> LastN(x + [e]) == LastN(x)[1..] + [e]
  {
    if |x| >= MaxLogEntries {
      assert LastN(x)[1..] + [e] == (x + [e])[|x| + 1 - MaxLogEntries..];
    }
  }

  /** After k <= MAX_LOG_ENTRIES inserts into the empty logger, reading k records back gives
      exactly those records, newest first. */
  lemma RecentAfterFewInserts(es: seq<AttackLog>, now: int)
    requires |es| <= MaxLogEntries
    ensures Valid(Boot)
    ensures Recent(InsertAll(Boot, es, now), |es|) == Reverse(es)
  {
    InsertAllContents(Boot, es, now);
    assert Contents(Boot) + es == es;
  }

  /** After more than MAX_LOG_ENTRIES inserts, reading MAX_LOG_ENTRIES records back gives exactly
      the last MAX_LOG_ENTRIES inserted, newest first; the older ones are gone. */
  lemma RecentAfterManyInserts(es: seq<AttackLog>, now: int)
    requires |es| > MaxLogEntries
    ensures Valid(Boot)
    ensures Recent(InsertAll(Boot, es, now), MaxLogEntries) == Reverse(es[|es| - MaxLogEntries..])
  {
    InsertAllContents(Boot, es, now);
    assert Contents(Boot) + es == es;
  }

  /** The read-out is the newest `min(count, maxLogs)` retained records, reversed. */
  lemma RecentNewestFirst(l: Logger, maxLogs: nat)
    requires Valid(l)
    ensures Recent(l, maxLogs) == Reverse(Contents(l)[l.count - Min(l.count, maxLogs)..])
  {
  }

  /** After a clear, every read-out is empty and the count is zero, whatever the limit. */
  lemma ClearEmptiesReadOut(l: Logger, maxLogs: nat)
    requires Valid(l)
    ensures Recent(Clear(l), maxLogs) == []
    ensures Count(Clear(l)) == 0
    ensures Clear(l).stats.startTime == l.stats.startTime
  {
  }

  /** A reload from flash followed by a read-out returns the loaded records newest first. */
  lemma ReloadReadOut(loaded: seq<AttackLog>, now: int)
    requires |loaded| <= MaxLogEntries
    ensures Init(true, loaded, now).err == EspOk
    ensures Recent(Init(true, loaded, now).logger, |loaded|) == Reverse(loaded)
  {
  }
}
