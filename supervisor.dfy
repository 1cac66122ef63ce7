/**
 * `device_task`: the per-device supervisor. It makes sure the device's log
 * exists (writing the header only when the file is absent), then loops until
 * the stop event is seen: connect, check the link, look for the notify
 * characteristic, subscribe, and listen; any failure on the way ends the
 * attempt and, unless stop is already set, sleeps before the next one.
 *
 * The radio is an input: `att(n)` is how the `n`-th connection attempt goes.
 * The stop event is shared with the thread that sets it; seen from one task
 * it is a flag that, once set, stays set, so it is modelled by the number of
 * the first read that finds it set (`stopAt`). Notifications are delivered
 * during the one-second sleeps of the listen loop: `ticks[i]` arrive during
 * the sleep after poll `i`.
 */
module Supervisor {
  import opened Common
  import opened Payload
  import opened Address
  import opened LogFormat

  // ---------------------------------------------------------------------
  // What the link may do
  // ---------------------------------------------------------------------

  datatype Characteristic = Characteristic(uuid: string, properties: seq<string>)

  datatype Service = Service(characteristics: seq<Characteristic>)

  /** One call of the notification handler: the time it reads, the bytes, and whether the append fails. */
  datatype Notification = Notification(stamp: string, payload: seq<Byte>, writeFails: bool)

  /** How one connection attempt goes. */
  datatype Attempt =
    | ConnectFails
    | Connected(linkUp: bool, services: seq<Service>, subscribes: bool, ticks: seq<seq<Notification>>)

  /** The lifecycle states a trace records, in the order an attempt reaches them. */
  datatype Phase = Connecting | Verifying | Subscribing | Listening | Backoff | Stopped

  /** The phases of an attempt that reaches the listen loop. */
  const SERVED: seq<Phase> := [Connecting, Verifying, Subscribing, Listening]

  // ---------------------------------------------------------------------
  // Looking for the notify characteristic
  // ---------------------------------------------------------------------

  /** `ch.uuid.lower() == UUID_TH_NOTIFY and ("notify" in ch.properties or "indicate" in ch.properties)` */
  predicate Notifies(ch: Characteristic)
  {
    Lower(ch.uuid) == UUID_TH_NOTIFY && ("notify" in ch.properties || "indicate" in ch.properties)
  }

  /** Some characteristic of some service notifies. */
  ghost predicate HasNotifyChar(services: seq<Service>)
  {
    exists i, j :: 0 <= i < |services| && 0 <= j < |services[i].characteristics| && Notifies(services[i].characteristics[j])
  }

  /** `any(...)` over one service's characteristics, in order. */
  function AnyCharacteristic(chs: seq<Characteristic>): (ok: bool)
    ensures ok <==> exists j :: 0 <= j < |chs| && Notifies(chs[j])
  {
    if chs == [] then false
    else if Notifies(chs[0]) then true
    else
      assert forall j :: 1 <= j < |chs| ==> chs[j] == chs[1..][j - 1];
      AnyCharacteristic(chs[1..])
  }

  /** `any(... for s in services for ch in s.characteristics)`, in order. */
  function AnyNotifies(services: seq<Service>): (ok: bool)
    ensures ok <==> exists i :: 0 <= i < |services| && AnyCharacteristic(services[i].characteristics)
  {
    if services == [] then false
    else
      assert forall i :: 1 <= i < |services| ==> services[i] == services[1..][i - 1];
      AnyCharacteristic(services[0].characteristics) || AnyNotifies(services[1..])
  }

  /** The scan finds the characteristic exactly when one exists. */
  lemma {:induction false} AnyNotifiesIff(services: seq<Service>)
    ensures AnyNotifies(services) <==> HasNotifyChar(services)
  {
    if services != [] {
      AnyNotifiesIff(services[1..]);
      if HasNotifyChar(services) && !AnyCharacteristic(services[0].characteristics) {
        var i, j :| 0 <= i < |services| && 0 <= j < |services[i].characteristics| && Notifies(services[i].characteristics[j]);
        assert i > 0;
        assert services[1..][i - 1] == services[i];
      }
      if AnyNotifies(services[1..]) {
        var i, j :| 0 <= i < |services[1..]| && 0 <= j < |services[1..][i].characteristics| && Notifies(services[1..][i].characteristics[j]);
        assert services[i + 1] == services[1..][i];
      }
    }
  }

  // ---------------------------------------------------------------------
  // One attempt, up to the listen loop
  // ---------------------------------------------------------------------

  /** An attempt fails having reached some phases, or gets to listen with these ticks. */
  datatype Try = Failed(reached: seq<Phase>) | Served(ticks: seq<seq<Notification>>)

  /**
   * The body of the `try` up to `start_notify`: a failed connect, a link
   * reported down, a missing characteristic and a failed subscription each
   * raise into the `except` handler.
   */
  function TryAttempt(a: Attempt): (t: Try)
  {
    match a
    case ConnectFails => Failed([Connecting])
    case Connected(linkUp, services, subscribes, ticks) =>
      if !linkUp then Failed([Connecting, Verifying])
      else if !AnyNotifies(services) then Failed([Connecting, Verifying])
      else if !subscribes then Failed([Connecting, Verifying, Subscribing])
      else Served(ticks)
  }

  /**
   * An attempt subscribes only when the link is up and some characteristic
   * notifies, and listens exactly when the subscription also succeeds;
   * every other attempt fails.
   */
  lemma TryAttemptIff(a: Attempt)
    ensures var t := TryAttempt(a);
            && (t.Failed? ==> |t.reached| > 0 && t.reached[0] == Connecting && Listening !in t.reached && Backoff !in t.reached && Stopped !in t.reached)
            && ((t.Served? || Subscribing in t.reached) <==> a.Connected? && a.linkUp && HasNotifyChar(a.services))
            && (t.Served? <==> a.Connected? && a.linkUp && HasNotifyChar(a.services) && a.subscribes)
  {
    if a.Connected? {
      AnyNotifiesIff(a.services);
    }
  }

  // ---------------------------------------------------------------------
  // The handler and the log
  // ---------------------------------------------------------------------

  /** The record the handler appends for `n`, if any: none when the frame does not decode or the write fails. */
  function RowOf(n: Notification): (row: Option<string>)
    ensures row.Some? <==> |n.payload| >= FRAME_LEN && !n.writeFails
    ensures row.Some? ==> row.value == RowLine(n.stamp, DecodeThv(n.payload).value)
  {
    match DecodeThv(n.payload)
    case None => None
    case Some(r) => if n.writeFails then None else Some(RowLine(n.stamp, r))
  }

  /** The records appended while the handler runs on `ns`, in order. */
  function Rows(ns: seq<Notification>): seq<string>
    decreases |ns|
  {
    if ns == [] then []
    else
      var last := RowOf(ns[|ns| - 1]);
      Rows(ns[..|ns| - 1]) + (if last.Some? then [last.value] else [])
  }

  lemma {:induction false} RowsAppend(a: seq<Notification>, b: seq<Notification>)
    ensures Rows(a + b) == Rows(a) + Rows(b)
    decreases |b|
  {
    if b == [] {
      assert a + b == a;
    } else {
      var init := b[..|b| - 1];
      RowsAppend(a, init);
      assert (a + b)[..|a + b| - 1] == a + init;
    }
  }

  /** The handler succeeds when the frame decodes and the append goes through. */
  predicate Succeeds(n: Notification)
  {
    |n.payload| >= FRAME_LEN && !n.writeFails
  }

  /** How many of `ns` the handler records. */
  function Successes(ns: seq<Notification>): nat
  {
    if ns == [] then 0 else (if Succeeds(ns[0]) then 1 else 0) + Successes(ns[1..])
  }

  lemma {:induction false} SuccessesAppend(a: seq<Notification>, b: seq<Notification>)
    ensures Successes(a + b) == Successes(a) + Successes(b)
    decreases |a|
  {
    if a == [] {
      assert a + b == b;
    } else {
      SuccessesAppend(a[1..], b);
      var c := a + b;
      assert c[0] == a[0] && c[1..] == a[1..] + b;
      assert Successes(c) == (if Succeeds(c[0]) then 1 else 0) + Successes(c[1..]);
    }
  }

  /** The records of one notification: its row, or nothing. */
  lemma RowsSingle(n: Notification)
    ensures Rows([n]) == if RowOf(n).Some? then [RowOf(n).value] else []
  {
    assert [n][..0] == [];
  }

  /**
   * One record per successful notification: a frame that does not decode,
   * or an append that fails, adds nothing.
   */
  lemma {:induction false} RowsCount(ns: seq<Notification>)
    ensures |Rows(ns)| == Successes(ns)
    decreases |ns|
  {
    if ns != [] {
      var init, n := ns[..|ns| - 1], ns[|ns| - 1];
      RowsCount(init);
      SuccessesAppend(init, [n]);
      assert init + [n] == ns;
      assert Successes([n]) == if Succeeds(n) then 1 else 0;
    }
  }

  /** With ISO timestamps, no record the handler writes is a header. */
  lemma {:induction false} RowsAreNotHeaders(ns: seq<Notification>)
    requires forall k :: 0 <= k < |ns| ==> PlainField(ns[k].stamp)
    ensures forall i :: 0 <= i < |Rows(ns)| ==> Rows(ns)[i] != HeaderLine()
    decreases |ns|
  {
    if ns != [] {
      var init, n := ns[..|ns| - 1], ns[|ns| - 1];
      assert forall k :: 0 <= k < |init| ==> init[k] == ns[k];
      RowsAreNotHeaders(init);
      var head := Rows(init);
      var tail := if RowOf(n).Some? then [RowOf(n).value] else [];
      assert Rows(ns) == head + tail;
      if RowOf(n).Some? {
        RowIsNotHeader(n.stamp, DecodeThv(n.payload).value);
      }
      forall i | 0 <= i < |head + tail|
        ensures (head + tail)[i] != HeaderLine()
      {
        if i < |head| {
          assert (head + tail)[i] == head[i];
        }
      }
    }
  }

  /** The log as the task finds it: the existing file, or just the header it writes. */
  function InitialLog(files: map<string, seq<string>>, path: string): (log: seq<string>)
    ensures path !in files ==> log == [HeaderLine()]
    ensures path in files ==> log == files[path]
  {
    if path in files then files[path] else [HeaderLine()]
  }

  // ---------------------------------------------------------------------
  // The whole run
  // ---------------------------------------------------------------------

  /** How a run ends: the phases it went through, the final log, the notifications heard, reads of the flag, attempts made. */
  datatype Outcome = Outcome(trace: seq<Phase>, log: seq<string>, heard: seq<Notification>, polls: nat, attempts: nat)

  /** Reads of the flag still to come before it reads set. */
  function ToGo(stopAt: nat, polls: nat): nat
  {
    if polls < stopAt then stopAt - polls else 0
  }

  function TickAt(ticks: seq<seq<Notification>>, i: nat): seq<Notification>
  {
    if i < |ticks| then ticks[i] else []
  }

  /** The notifications of the first `count` sleeps of the listen loop. */
  function Heard(ticks: seq<seq<Notification>>, count: nat): seq<Notification>
  {
    if count == 0 then [] else Heard(ticks, count - 1) + TickAt(ticks, count - 1)
  }

  /**
   * The run from the loop head, with `n` attempts made, the flag read
   * `polls` times so far and the log holding `log`.
   */
  function Supervise(att: nat -> Attempt, stopAt: nat, n: nat, polls: nat, log: seq<string>): (o: Outcome)
    decreases ToGo(stopAt, polls)
  {
    if polls >= stopAt then Outcome([Stopped], log, [], polls + 1, n)
    else
      match TryAttempt(att(n))
      case Served(ticks) =>
        var heard := Heard(ticks, stopAt - (polls + 1));
        Outcome(SERVED + [Stopped], log + Rows(heard), heard, stopAt + 1, n + 1)
      case Failed(reached) =>
        if polls + 1 >= stopAt then Outcome(reached + [Stopped], log, [], polls + 2, n + 1)
        else
          var o := Supervise(att, stopAt, n + 1, polls + 2, log);
          Outcome(reached + [Backoff] + o.trace, o.log, o.heard, o.polls, o.attempts)
  }

  function Max(a: nat, b: nat): nat
  {
    if a < b then b else a
  }

  /**
   * The run ends at the first read that finds the flag set, and only there:
   * the last read is the one numbered `stopAt` (or the first read, if the
   * flag was set before the loop was entered).
   */
  lemma {:induction false} SuperviseStopsAtFlag(att: nat -> Attempt, stopAt: nat, n: nat, polls: nat, log: seq<string>)
    ensures Supervise(att, stopAt, n, polls, log).polls == Max(polls, stopAt) + 1
    decreases ToGo(stopAt, polls)
  {
    if polls < stopAt && TryAttempt(att(n)).Failed? && polls + 1 < stopAt {
      SuperviseStopsAtFlag(att, stopAt, n + 1, polls + 2, log);
    }
  }

  /**
   * The trace is a run of the lifecycle: it ends in `Stopped` and nowhere
   * else; `Listening` comes only right before the end (after listening the
   * task returns and makes no further attempt); `Backoff` is always followed
   * by a new `Connecting` or, when the flag is seen at the loop head, by the
   * end.
   */
  lemma {:induction false} SuperviseTrace(att: nat -> Attempt, stopAt: nat, n: nat, polls: nat, log: seq<string>)
    ensures var t := Supervise(att, stopAt, n, polls, log).trace;
            && |t| > 0 && t[|t| - 1] == Stopped
            && (forall i :: 0 <= i < |t| - 1 ==> t[i] != Stopped)
            && (forall i :: 0 <= i < |t| && t[i] == Listening ==> i == |t| - 2)
            && (forall i :: 0 <= i < |t| && t[i] == Backoff ==> i + 1 < |t| && (t[i + 1] == Connecting || t[i + 1] == Stopped))
    decreases ToGo(stopAt, polls)
  {
    if polls < stopAt {
      var tr := TryAttempt(att(n));
      TryAttemptIff(att(n));
      if tr.Failed? && polls + 1 < stopAt {
        var o := Supervise(att, stopAt, n + 1, polls + 2, log);
        SuperviseTrace(att, stopAt, n + 1, polls + 2, log);
        SuperviseHead(att, stopAt, n + 1, polls + 2, log);
        RetryTrace(tr.reached, o.trace);
      } else if tr.Failed? {
        FinalTrace(tr.reached);
      }
    }
  }

  /** A run from the loop head begins with an attempt, or ends at once. */
  lemma SuperviseHead(att: nat -> Attempt, stopAt: nat, n: nat, polls: nat, log: seq<string>)
    ensures var t := Supervise(att, stopAt, n, polls, log).trace;
            |t| > 0 && (t[0] == Connecting || t[0] == Stopped)
  {
    if polls < stopAt {
      TryAttemptIff(att(n));
    }
  }

  /** Shape of a trace: ends in `Stopped` only, `Listening` only second to last, `Backoff` followed by a restart or the end. */
  ghost predicate Lifecycle(t: seq<Phase>)
  {
    && |t| > 0 && t[|t| - 1] == Stopped
    && (forall i :: 0 <= i < |t| - 1 ==> t[i] != Stopped)
    && (forall i :: 0 <= i < |t| && t[i] == Listening ==> i == |t| - 2)
    && (forall i :: 0 <= i < |t| && t[i] == Backoff ==> i + 1 < |t| && (t[i + 1] == Connecting || t[i + 1] == Stopped))
  }

  lemma RetryTrace(reached: seq<Phase>, rest: seq<Phase>)
    requires Listening !in reached && Backoff !in reached && Stopped !in reached
    requires Lifecycle(rest) && (rest[0] == Connecting || rest[0] == Stopped)
    ensures Lifecycle(reached + [Backoff] + rest)
  {
    var t := reached + [Backoff] + rest;
    var m := |reached| + 1;
    assert forall i :: m <= i < |t| ==> t[i] == rest[i - m];
    assert forall i :: 0 <= i < |reached| ==> t[i] == reached[i];
  }

  lemma FinalTrace(reached: seq<Phase>)
    requires Listening !in reached && Backoff !in reached && Stopped !in reached
    ensures Lifecycle(reached + [Stopped])
  {
    var t := reached + [Stopped];
    assert forall i :: 0 <= i < |reached| ==> t[i] == reached[i];
  }

  /** Every attempt the run makes shows up as one `Connecting` in the trace. */
  function CountPhase(t: seq<Phase>, p: Phase): nat
  {
    if t == [] then 0 else (if t[0] == p then 1 else 0) + CountPhase(t[1..], p)
  }

  lemma {:induction false} CountPhaseAppend(a: seq<Phase>, b: seq<Phase>, p: Phase)
    ensures CountPhase(a + b, p) == CountPhase(a, p) + CountPhase(b, p)
    decreases |a|
  {
    if a == [] {
      assert a + b == b;
    } else {
      CountPhaseAppend(a[1..], b, p);
      var c := a + b;
      assert c[0] == a[0] && c[1..] == a[1..] + b;
      assert CountPhase(c, p) == (if c[0] == p then 1 else 0) + CountPhase(c[1..], p);
    }
  }

  lemma {:induction false} AttemptsAreConnects(att: nat -> Attempt, stopAt: nat, n: nat, polls: nat, log: seq<string>)
    ensures var o := Supervise(att, stopAt, n, polls, log);
            o.attempts == n + CountPhase(o.trace, Connecting)
    decreases ToGo(stopAt, polls)
  {
    if polls < stopAt {
      var tr := TryAttempt(att(n));
      OneConnect(att(n));
      if tr.Failed? {
        var r := tr.reached;
        if polls + 1 < stopAt {
          var o := Supervise(att, stopAt, n + 1, polls + 2, log);
          AttemptsAreConnects(att, stopAt, n + 1, polls + 2, log);
          CountPhaseAppend(r + [Backoff], o.trace, Connecting);
          CountPhaseAppend(r, [Backoff], Connecting);
        } else {
          CountPhaseAppend(r, [Stopped], Connecting);
        }
      }
    }
  }

  /** One attempt connects once, whether it fails or listens. */
  lemma OneConnect(a: Attempt)
    ensures var t := TryAttempt(a);
            && (t.Failed? ==> CountPhase(t.reached, Connecting) == 1)
            && CountPhase(SERVED + [Stopped], Connecting) == 1
  {
    assert CountPhase([], Connecting) == 0;
    assert CountPhase([Stopped], Connecting) == 0;
    assert CountPhase([Listening, Stopped], Connecting) == 0;
    assert CountPhase([Subscribing], Connecting) == 0;
    assert CountPhase([Subscribing, Listening, Stopped], Connecting) == 0;
    assert CountPhase([Verifying], Connecting) == 0;
    assert CountPhase([Verifying, Subscribing], Connecting) == 0;
    assert CountPhase([Verifying, Subscribing, Listening, Stopped], Connecting) == 0;
    assert SERVED + [Stopped] == [Connecting, Verifying, Subscribing, Listening, Stopped];
    assert [Connecting, Verifying, Subscribing, Listening, Stopped][1..] == [Verifying, Subscribing, Listening, Stopped];
  }

  /**
   * No retry limit: when every attempt fails, the task keeps attempting
   * until it sees the flag, once for every two polls that find it clear,
   * and logs nothing.
   */
  lemma {:induction false} RetriesUntilStop(att: nat -> Attempt, stopAt: nat, n: nat, polls: nat, log: seq<string>)
    requires forall k :: TryAttempt(att(k)).Failed?
    requires polls <= stopAt
    ensures var o := Supervise(att, stopAt, n, polls, log);
            o.attempts == n + (stopAt - polls + 1) / 2 && o.log == log && o.heard == []
    decreases ToGo(stopAt, polls)
  {
    if polls + 1 < stopAt {
      RetriesUntilStop(att, stopAt, n + 1, polls + 2, log);
    }
  }

  /**
   * The log only grows, by the records of the notifications heard, and only
   * a run that reaches the listen loop hears any.
   */
  lemma {:induction false} SuperviseLog(att: nat -> Attempt, stopAt: nat, n: nat, polls: nat, log: seq<string>)
    ensures var o := Supervise(att, stopAt, n, polls, log);
            && o.log == log + Rows(o.heard)
            && (o.heard != [] ==> |o.trace| >= 2 && o.trace[|o.trace| - 2] == Listening)
    decreases ToGo(stopAt, polls)
  {
    if polls < stopAt {
      match TryAttempt(att(n))
      case Served(_) =>
      case Failed(reached) =>
        if polls + 1 < stopAt {
          SuperviseLog(att, stopAt, n + 1, polls + 2, log);
          var o := Supervise(att, stopAt, n + 1, polls + 2, log);
          var t := reached + [Backoff] + o.trace;
          if o.heard != [] {
            assert t[|t| - 2] == o.trace[|o.trace| - 2];
          }
      } else {
        assert Rows([]) == [];
      }
    }
  }

  /** Once the flag reads set at the loop head, the task ends: no attempt, no record. */
  lemma StoppedMeansDone(att: nat -> Attempt, stopAt: nat, n: nat, polls: nat, log: seq<string>)
    requires stopAt <= polls
    ensures Supervise(att, stopAt, n, polls, log) == Outcome([Stopped], log, [], polls + 1, n)
  {
  }

  /**
   * The log contract of a whole task on timestamps without commas, quotes
   * or line breaks: a fresh file gets exactly one header, first, followed
   * by one record per successful notification; an existing file keeps its
   * lines, gets no header, and gains one record per successful notification.
   */
  lemma LogContract(att: nat -> Attempt, stopAt: nat, polls: nat, files: map<string, seq<string>>, path: string)
    ensures var o := Supervise(att, stopAt, 0, polls, InitialLog(files, path));
            (forall k :: 0 <= k < |o.heard| ==> PlainField(o.heard[k].stamp)) ==>
              && |o.log| == |InitialLog(files, path)| + Successes(o.heard)
              && o.log[..|InitialLog(files, path)|] == InitialLog(files, path)
              && (path !in files ==> o.log[0] == HeaderLine() && forall i :: 1 <= i < |o.log| ==> o.log[i] != HeaderLine())
              && (path in files ==> forall i :: |files[path]| <= i < |o.log| ==> o.log[i] != HeaderLine())
  {
    var log := InitialLog(files, path);
    var o := Supervise(att, stopAt, 0, polls, log);
    SuperviseLog(att, stopAt, 0, polls, log);
    if forall k :: 0 <= k < |o.heard| ==> PlainField(o.heard[k].stamp) {
      LogGrowth(log, o.heard, o.log);
      if path !in files {
        assert o.log[..1] == [HeaderLine()];
      }
    }
  }

  /** Appending the records of `heard` keeps the old lines and adds one non-header line per success. */
  lemma LogGrowth(log: seq<string>, heard: seq<Notification>, final: seq<string>)
    requires final == log + Rows(heard)
    requires forall k :: 0 <= k < |heard| ==> PlainField(heard[k].stamp)
    ensures |final| == |log| + Successes(heard)
    ensures final[..|log|] == log
    ensures forall i :: |log| <= i < |final| ==> final[i] != HeaderLine()
  {
    RowsCount(heard);
    RowsAreNotHeaders(heard);
    assert forall i :: |log| <= i < |final| ==> final[i] == Rows(heard)[i - |log|];
  }

  // ---------------------------------------------------------------------
  // The task itself
  // ---------------------------------------------------------------------

  /** `stop_event`, as one task polls it. */
  class StopEvent {
    /** The number of the first read that finds the flag set. */
    const stopAt: nat
    /** Reads made so far. */
    var polls: nat

    constructor (stopAt: nat)
      ensures this.stopAt == stopAt && polls == 0
    {
      this.stopAt := stopAt;
      polls := 0;
    }

    /** `stop_event.is_set()` */
    method IsSet() returns (b: bool)
      modifies this
      ensures b <==> old(polls) >= stopAt
      ensures polls == old(polls) + 1
    {
      b := polls >= stopAt;
      polls := polls + 1;
    }
  }

  /** The log directory: each path's lines. */
  class LogDir {
    var files: map<string, seq<string>>

    constructor (files: map<string, seq<string>>)
      ensures this.files == files
    {
      this.files := files;
    }

    /** `os.path.exists(path)` */
    method Exists(path: string) returns (b: bool)
      ensures b <==> path in files
    {
      b := path in files;
    }

    /** `open(path, "w")` and one `writerow` */
    method Create(path: string, line: string)
      modifies this
      ensures files == old(files)[path := [line]]
    {
      files := files[path := [line]];
    }

    /** `open(path, "a")` and one `writerow` */
    method Append(path: string, line: string)
      modifies this
      ensures files == old(files)[path := (if path in old(files) then old(files)[path] else []) + [line]]
    {
      files := files[path := (if path in files then files[path] else []) + [line]];
    }
  }

  /** The notification handler: decode, and append one record unless decoding or the write fails. */
  method Handler(dir: LogDir, path: string, n: Notification)
    requires path in dir.files
    modifies dir
    ensures dir.files == old(dir.files)[path := old(dir.files)[path] + Rows([n])]
  {
    RowsSingle(n);
    var parsed := DecodeThv(n.payload);
    if parsed.None? {
      KeepFile(dir.files, path);
      return;
    }
    if !n.writeFails {
      dir.Append(path, RowLine(n.stamp, parsed.value));
    } else {
      KeepFile(dir.files, path);
    }
  }

  /** Rewriting a file with its own lines changes nothing. */
  lemma KeepFile(files: map<string, seq<string>>, path: string)
    requires path in files
    ensures files[path := files[path] + []] == files
  {
    assert files[path] + [] == files[path];
  }

  /** The handler calls during one sleep of the listen loop. */
  method Deliver(dir: LogDir, path: string, tick: seq<Notification>)
    requires path in dir.files
    modifies dir
    ensures dir.files == old(dir.files)[path := old(dir.files)[path] + Rows(tick)]
  {
    ghost var files0, log0 := dir.files, dir.files[path];
    assert tick[..0] == [];
    KeepFile(files0, path);
    for k := 0 to |tick|
      invariant dir.files == files0[path := log0 + Rows(tick[..k])]
    {
      Handler(dir, path, tick[k]);
      DeliverStep(tick, k);
      assert (log0 + Rows(tick[..k])) + Rows([tick[k]]) == log0 + Rows(tick[..k + 1]);
    }
    assert tick[..|tick|] == tick;
  }

  lemma DeliverStep(tick: seq<Notification>, k: nat)
    requires k < |tick|
    ensures Rows(tick[..k + 1]) == Rows(tick[..k]) + Rows([tick[k]])
  {
    RowsAppend(tick[..k], [tick[k]]);
    assert tick[..k + 1] == tick[..k] + [tick[k]];
  }

  /** `while not stop_event.is_set(): await asyncio.sleep(1.0)`, with the handler running during each sleep. */
  method ListenLoop(stop: StopEvent, dir: LogDir, path: string, ticks: seq<seq<Notification>>) returns (ghost heard: seq<Notification>)
    requires path in dir.files
    modifies stop, dir
    ensures heard == Heard(ticks, ToGo(stop.stopAt, old(stop.polls)))
    ensures stop.polls == Max(old(stop.polls), stop.stopAt) + 1
    ensures dir.files == old(dir.files)[path := old(dir.files)[path] + Rows(heard)]
  {
    ghost var files0, log0, polls0 := dir.files, dir.files[path], stop.polls;
    var i := 0;
    heard := [];
    KeepFile(files0, path);
    while true
      invariant stop.polls == polls0 + i
      invariant i <= ToGo(stop.stopAt, polls0)
      invariant heard == Heard(ticks, i)
      invariant dir.files == files0[path := log0 + Rows(heard)]
      decreases ToGo(stop.stopAt, stop.polls)
    {
      var isSet := stop.IsSet();
      if isSet {
        return;
      }
      var tick := TickAt(ticks, i);
      ghost var before := dir.files;
      Deliver(dir, path, tick);
      ListenStep(files0, path, log0, heard, tick, before, dir.files);
      heard := heard + tick;
      i := i + 1;
    }
  }

  lemma ListenStep(files0: map<string, seq<string>>, path: string, log0: seq<string>, heard: seq<Notification>, tick: seq<Notification>,
                   before: map<string, seq<string>>, after: map<string, seq<string>>)
    requires before == files0[path := log0 + Rows(heard)]
    requires after == before[path := before[path] + Rows(tick)]
    ensures after == files0[path := log0 + Rows(heard + tick)]
  {
    RowsAppend(heard, tick);
    assert (log0 + Rows(heard)) + Rows(tick) == log0 + Rows(heard + tick);
  }

  /** One turn of the retry loop when the flag reads set at its head. */
  lemma TurnStops(att: nat -> Attempt, stopAt: nat, n: nat, polls: nat, log: seq<string>)
    requires polls >= stopAt
    ensures Supervise(att, stopAt, n, polls, log) == Outcome([Stopped], log, [], polls + 1, n)
  {
  }

  /** One turn of the retry loop whose attempt gets to listen. */
  lemma TurnListens(att: nat -> Attempt, stopAt: nat, n: nat, polls: nat, log: seq<string>, ticks: seq<seq<Notification>>)
    requires polls < stopAt && TryAttempt(att(n)) == Served(ticks)
    ensures var heard := Heard(ticks, ToGo(stopAt, polls + 1));
            Supervise(att, stopAt, n, polls, log) == Outcome(SERVED + [Stopped], log + Rows(heard), heard, stopAt + 1, n + 1)
  {
  }

  /** One turn of the retry loop whose attempt fails. */
  lemma TurnFails(att: nat -> Attempt, stopAt: nat, n: nat, polls: nat, log: seq<string>, reached: seq<Phase>)
    requires polls < stopAt && TryAttempt(att(n)) == Failed(reached)
    ensures polls + 1 >= stopAt ==> Supervise(att, stopAt, n, polls, log) == Outcome(reached + [Stopped], log, [], polls + 2, n + 1)
    ensures polls + 1 < stopAt ==>
              var o := Supervise(att, stopAt, n + 1, polls + 2, log);
              Supervise(att, stopAt, n, polls, log) == Outcome(reached + [Backoff] + o.trace, o.log, o.heard, o.polls, o.attempts)
  {
  }

  /**
   * `device_task`: the log path from the normalised address, the header if
   * the file is absent (a failing header write ends the task with the
   * exception, before any attempt), then the retry loop. The trace, the
   * reads of the flag, the attempts and the log are those of `Supervise`;
   * no other file changes.
   */
  method DeviceTask(address: string, att: nat -> Attempt, stop: StopEvent, dir: LogDir, headerFails: bool)
    returns (trace: seq<Phase>, attempts: nat)
    modifies stop, dir
    ensures var path := CsvPath(Normalize(address));
            if headerFails && path !in old(dir.files) then
              trace == [] && attempts == 0 && dir.files == old(dir.files) && stop.polls == old(stop.polls)
            else
              var o := Supervise(att, stop.stopAt, 0, old(stop.polls), InitialLog(old(dir.files), path));
              && trace == o.trace && attempts == o.attempts && stop.polls == o.polls
              && dir.files == old(dir.files)[path := o.log]
  {
    var path := CsvPath(Normalize(address));
    var ready := OpenLog(dir, path, headerFails);
    if !ready {
      return [], 0;
    }
    ghost var log0 := dir.files[path];
    trace, attempts := RetryLoop(att, stop, dir, path);
    UpdateTwice(old(dir.files), path, log0, dir.files[path]);
  }

  /**
   * `if not os.path.exists(path)`: write the header. `headerFails` says the
   * write raises, which ends the task; afterwards the file holds the log
   * the retry loop starts from.
   */
  method OpenLog(dir: LogDir, path: string, headerFails: bool) returns (ready: bool)
    modifies dir
    ensures ready <==> !(headerFails && path !in old(dir.files))
    ensures ready ==> dir.files == old(dir.files)[path := InitialLog(old(dir.files), path)]
    ensures !ready ==> dir.files == old(dir.files)
  {
    var present := dir.Exists(path);
    if !present {
      if headerFails {
        return false;
      }
      dir.Create(path, HeaderLine());
    } else {
      SameFile(dir.files, path);
    }
    return true;
  }

  /** `while not stop_event.is_set(): try: ... except: ...`, on a log that exists. */
  method RetryLoop(att: nat -> Attempt, stop: StopEvent, dir: LogDir, path: string)
    returns (trace: seq<Phase>, attempts: nat)
    requires path in dir.files
    modifies stop, dir
    ensures var o := Supervise(att, stop.stopAt, 0, old(stop.polls), old(dir.files)[path]);
            && trace == o.trace && attempts == o.attempts && stop.polls == o.polls
            && dir.files == old(dir.files)[path := o.log]
  {
    ghost var files0, log0 := dir.files, dir.files[path];
    ghost var whole := Supervise(att, stop.stopAt, 0, stop.polls, log0);
    trace := [];
    attempts := 0;
    while true
      invariant dir.files == files0
      invariant Resumes(whole, trace, Supervise(att, stop.stopAt, attempts, stop.polls, log0))
      decreases ToGo(stop.stopAt, stop.polls)
    {
      ghost var n, polls := attempts, stop.polls;
      var isSet := stop.IsSet();
      if isSet {
        TurnStops(att, stop.stopAt, n, polls, log0);
        trace := trace + [Stopped];
        break;
      }
      var t := TryAttempt(att(attempts));
      attempts := attempts + 1;
      if t.Served? {
        TurnListens(att, stop.stopAt, n, polls, log0, t.ticks);
        ghost var heard := ListenLoop(stop, dir, path, t.ticks);
        trace := trace + (SERVED + [Stopped]);
        return;
      }
      TurnFails(att, stop.stopAt, n, polls, log0, t.reached);
      isSet := stop.IsSet();
      if isSet {
        trace := trace + (t.reached + [Stopped]);
        break;
      }
      RetryTurn(att, stop.stopAt, n, polls, log0, t.reached, whole, trace);
      trace := trace + (t.reached + [Backoff]);
    }
    SameFile(files0, path);
  }

  /** `whole` is the run so far (`trace`) followed by `rest`. */
  ghost predicate Resumes(whole: Outcome, trace: seq<Phase>, rest: Outcome)
  {
    whole == Outcome(trace + rest.trace, rest.log, rest.heard, rest.polls, rest.attempts)
  }

  /** A failed attempt followed by a clear flag: the run goes on with the next attempt after `Backoff`. */
  lemma RetryTurn(att: nat -> Attempt, stopAt: nat, n: nat, polls: nat, log: seq<string>, reached: seq<Phase>, whole: Outcome, trace: seq<Phase>)
    requires polls + 1 < stopAt && TryAttempt(att(n)) == Failed(reached)
    requires Resumes(whole, trace, Supervise(att, stopAt, n, polls, log))
    ensures Resumes(whole, trace + (reached + [Backoff]), Supervise(att, stopAt, n + 1, polls + 2, log))
  {
    var next := Supervise(att, stopAt, n + 1, polls + 2, log);
    TurnFails(att, stopAt, n, polls, log, reached);
    assert trace + (reached + [Backoff] + next.trace) == (trace + (reached + [Backoff])) + next.trace;
  }

  lemma UpdateTwice(files: map<string, seq<string>>, path: string, a: seq<string>, b: seq<string>)
    ensures files[path := a][path := b] == files[path := b]
  {
  }

  lemma SameFile(files: map<string, seq<string>>, path: string)
    requires path in files
    ensures files == files[path := files[path]]
  {
  }
}
