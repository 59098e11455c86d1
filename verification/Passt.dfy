/** The per-port passt process slot: configuration, spawning and crash-restart (passt.rs, dataplane.rs). */
module Passt {
  import opened Base
  import opened Cidr
  import Publish

  datatype Forward = Forward(host: u16, vm: u16)

  datatype Config = Config(vmIp: Ip, netmask: u32, gateway: Ip, forwards: seq<Forward>)

  // ---- the forward list --------------------------------------------------------------------------

  /** A port's published entries from VM port `vm` up, in ascending order. */
  function ForwardsFrom(slice: Publish.Slice, vm: nat): seq<Forward>
    decreases 0x1_0000 - vm
  {
    if vm >= 0x1_0000 then []
    else if vm in slice then [Forward(slice[vm], vm)] + ForwardsFrom(slice, vm + 1)
    else ForwardsFrom(slice, vm + 1)
  }

  function ForwardsOf(slice: Publish.Slice): seq<Forward>
  {
    ForwardsFrom(slice, 0)
  }

  predicate Ascending(fs: seq<Forward>)
  {
    forall i, j :: 0 <= i < j < |fs| ==> fs[i].vm < fs[j].vm
  }

  lemma AscendingCons(f: Forward, rest: seq<Forward>)
    requires Ascending(rest) && forall g :: g in rest ==> f.vm < g.vm
    ensures Ascending([f] + rest)
  {
    assert forall i :: 0 <= i < |rest| ==> rest[i] in rest;
  }

  lemma {:induction false} ForwardsFromMeans(slice: Publish.Slice, vm: nat)
    ensures forall f :: f in ForwardsFrom(slice, vm) <==> f.vm >= vm && f.vm in slice && slice[f.vm] == f.host
    ensures Ascending(ForwardsFrom(slice, vm))
    decreases 0x1_0000 - vm
  {
    if vm < 0x1_0000 {
      ForwardsFromMeans(slice, vm + 1);
      if vm in slice {
        var rest := ForwardsFrom(slice, vm + 1);
        AscendingCons(Forward(slice[vm], vm), rest);
      }
    }
  }

  /** The list holds exactly the slice, strictly ascending by VM port, so it determines the slice. */
  lemma ForwardsDetermineSlice(a: Publish.Slice, b: Publish.Slice)
    ensures ForwardsOf(a) == ForwardsOf(b) <==> a == b
    ensures forall f :: f in ForwardsOf(a) <==> f.vm in a && a[f.vm] == f.host
    ensures Ascending(ForwardsOf(a))
  {
    ForwardsFromMeans(a, 0);
    ForwardsFromMeans(b, 0);
    if ForwardsOf(a) == ForwardsOf(b) {
      forall v: u16 | v in a ensures v in b && b[v] == a[v] {
        assert Forward(a[v], v) in ForwardsOf(a);
      }
      forall v: u16 | v in b ensures v in a {
        assert Forward(b[v], v) in ForwardsOf(b);
      }
    }
  }

  function ConfigFor(vmIp: Ip, net: Network, slice: Publish.Slice): Config
  {
    Config(vmIp, Mask(net.cidr.prefix), net.gateway, ForwardsOf(slice))
  }

  // ---- backoff --------------------------------------------------------------------------------------

  const BACKOFF_BASE_MS: nat := 100
  const BACKOFF_CAP_MS: nat := 2000

  function Min(a: nat, b: nat): nat
  {
    if a <= b then a else b
  }

  /** The delay as computed: the shift is clamped so that nothing overflows. */
  function Backoff(failures: u32): nat
  {
    var shift := Min(if failures == 0 then 0 else failures - 1, 16);
    Min(BACKOFF_BASE_MS * Pow2(shift), BACKOFF_CAP_MS)
  }

  /** The delay as intended, for any number of consecutive failures. */
  function Wait(failures: nat): nat
    requires failures >= 1
  {
    Min(BACKOFF_BASE_MS * Pow2(failures - 1), BACKOFF_CAP_MS)
  }

  lemma {:induction false} Pow2Grows(a: nat, b: nat)
    requires a <= b
    ensures Pow2(a) <= Pow2(b)
  {
    if a < b {
      Pow2Grows(a, b - 1);
    }
  }

  /**
    The clamped, saturating computation gives the intended delay for every failure count; the
    factor never exceeds 2^16.
   */
  lemma BackoffIsWait(streak: nat, failures: u32)
    requires streak >= 1 && failures == Min(streak, U32_MAX)
    ensures Backoff(failures) == Wait(streak)
    ensures BACKOFF_BASE_MS <= Backoff(failures) <= BACKOFF_CAP_MS
  {
    assert Pow2(5) == 32;
    var shift := Min(failures - 1, 16);
    Pow2Grows(0, shift);
    if streak > 6 {
      Pow2Grows(5, shift);
      Pow2Grows(5, streak - 1);
    }
  }

  // ---- the slot -----------------------------------------------------------------------------------------

  /** `live` stands for a running process; `nextRetry` is in milliseconds. */
  datatype Slot = Slot(desired: Config, live: bool, failures: u32, nextRetry: Option<nat>, mac: Option<Mac>)

  function Running(s: Slot): Slot
  {
    s.(live := true, failures := 0, nextRetry := None)
  }

  function Failed(s: Slot, now: nat): Slot
  {
    var failures := if s.failures == U32_MAX then U32_MAX else s.failures + 1;
    s.(live := false, failures := failures, nextRetry := Some(now + Backoff(failures)))
  }

  /** A live slot with the wanted configuration is left alone; anything else is (re)spawned. */
  predicate UpToDate(slot: Option<Slot>, config: Config)
  {
    slot.Some? && slot.value.live && slot.value.desired == config
  }

  /** Makes the slot run `config`: `spawned` is the outcome of the spawn, `now` the time it was known. */
  function Ensure(slot: Option<Slot>, config: Config, spawned: bool, now: nat): Slot
  {
    if UpToDate(slot, config) then slot.value
    else
      var base := if slot.Some? then slot.value else Slot(config, false, 0, None, None);
      var stopped := base.(desired := config, live := false);
      if spawned then Running(stopped) else Failed(stopped, now)
  }

  /** Exit detection: a process found dead schedules a retry. */
  function Reap(s: Slot, exited: bool, now: nat): Slot
  {
    if s.live && exited then Failed(s, now) else s
  }

  predicate Due(s: Slot, now: nat)
  {
    !s.live && (s.nextRetry.Some? ==> now >= s.nextRetry.value)
  }

  /** One supervisor tick; `reaped`, `checked` and `tried` are the clock readings inside it. */
  function Supervise(s: Slot, exited: bool, reaped: nat, checked: nat, spawned: bool, tried: nat): Slot
  {
    var r := Reap(s, exited, reaped);
    if !Due(r, checked) then r else if spawned then Running(r) else Failed(r, tried)
  }

  /** At rest a slot is running cleanly, or is down with a failure on record and a retry set. */
  predicate AtRest(s: Slot)
  {
    if s.live then s.failures == 0 && s.nextRetry.None?
    else s.failures >= 1 && s.nextRetry.Some?
  }

  /** One spawn was tried, its outcome known at `now`: running cleanly, or down one failure further and backed off. */
  predicate Tried(before: Slot, after: Slot, spawned: bool, now: nat)
  {
    && after.desired == before.desired && after.mac == before.mac && after.live == spawned
    && (if spawned then after.failures == 0 && after.nextRetry.None?
        else after.failures == Min(before.failures + 1, U32_MAX)
             && after.nextRetry == Some(now + Wait(before.failures + 1)))
  }

  /**
    A tick tries to restart a slot that is down iff its retry time has come, and otherwise leaves
    it alone. A running process is left alone; one found dead leaves its slot down for 100 ms from
    then, at the end of which, in this tick or a later one, it is tried again.
   */
  lemma SuperviseMeans(s: Slot, exited: bool, reaped: nat, checked: nat, spawned: bool, tried: nat)
    requires AtRest(s)
    ensures var s' := Supervise(s, exited, reaped, checked, spawned, tried);
      if s.live then
        if !exited then s' == s
        else
          var down := s.(live := false, failures := 1, nextRetry := Some(reaped + 100));
          if checked < reaped + 100 then s' == down else Tried(down, s', spawned, tried)
      else if checked < s.nextRetry.value then s' == s
      else Tried(s, s', spawned, tried)
  {
    BackoffIsWait(1, 1);
    BackoffIsWait(2, 2);
    BackoffIsWait(s.failures + 1, Min(s.failures + 1, U32_MAX));
  }

  /**
    Ensuring a configuration leaves a process that already runs it alone; otherwise it tries one
    spawn with the new configuration, keeping the learned MAC.
   */
  lemma EnsureMeans(slot: Option<Slot>, config: Config, spawned: bool, now: nat)
    ensures var s' := Ensure(slot, config, spawned, now);
      if slot.Some? && slot.value.live && slot.value.desired == config then s' == slot.value
      else Tried(if slot.Some? then slot.value.(desired := config) else Slot(config, false, 0, None, None),
                 s', spawned, now)
  {
    var failures := if slot.Some? then slot.value.failures else 0;
    BackoffIsWait(failures + 1, Min(failures + 1, U32_MAX));
  }

  // ---- a timed run of one port's slot ---------------------------------------------------------------------

  datatype Attempt = Attempt(time: nat, bySupervisor: bool)

  datatype Event =
    | Want(config: Config, at: nat, spawned: bool, known: nat)
    | Tick(exited: bool, reaped: nat, checked: nat, spawned: bool, tried: nat)
    | Learn(mac: Mac)
    | Drop

  /** The slot, the time so far, every spawn attempt, and the failures since the last success. */
  datatype Machine = Machine(
    slot: Option<Slot>, clock: nat, attempts: seq<Attempt>, streak: nat, lastFailure: nat)

  const IDLE: Machine := Machine(None, 0, [], 0, 0)

  /** Clock readings never go back. */
  predicate InTime(m: Machine, e: Event)
  {
    match e
    case Want(_, at, _, known) => m.clock <= at <= known
    case Tick(_, reaped, checked, _, tried) => m.clock <= reaped <= checked <= tried
    case Learn(_) => true
    case Drop => true
  }

  function Outcome(m: Machine, slot: Slot, clock: nat, attempt: Attempt, spawned: bool): Machine
  {
    Machine(Some(slot), clock, m.attempts + [attempt],
            if spawned then 0 else m.streak + 1, if spawned then m.lastFailure else clock)
  }

  function Step(m: Machine, e: Event): Machine
  {
    match e
    case Drop => m.(slot := None, streak := 0)
    case Learn(mac) => if m.slot.None? then m else m.(slot := Some(m.slot.value.(mac := Some(mac))))
    case Want(config, at, spawned, known) =>
      if UpToDate(m.slot, config) then m.(clock := known)
      else Outcome(m, Ensure(m.slot, config, spawned, known), known, Attempt(at, false), spawned)
    case Tick(exited, reaped, checked, spawned, tried) =>
      if m.slot.None? then m.(clock := tried)
      else
        var s := m.slot.value;
        var crashed := s.live && exited;
        var r := m.(slot := Some(Reap(s, exited, reaped)), clock := tried,
                    streak := if crashed then m.streak + 1 else m.streak,
                    lastFailure := if crashed then reaped else m.lastFailure);
        if !Due(r.slot.value, checked) then r
        else Outcome(r, Supervise(s, exited, reaped, checked, spawned, tried), tried, Attempt(checked, true), spawned)
  }

  function Run(m: Machine, events: seq<Event>): Machine
  {
    if events == [] then m else Step(Run(m, events[..|events| - 1]), events[|events| - 1])
  }

  predicate AllInTime(m: Machine, events: seq<Event>)
  {
    events == []
    || (AllInTime(m, events[..|events| - 1]) && InTime(Run(m, events[..|events| - 1]), events[|events| - 1]))
  }

  /** Supervisor attempts keep their distance from the attempt before them. */
  predicate Spaced(attempts: seq<Attempt>)
  {
    forall i :: 0 <= i < |attempts| && attempts[i].bySupervisor ==>
      i > 0 && attempts[i].time >= attempts[i - 1].time + BACKOFF_BASE_MS
  }

  ghost predicate Healthy(m: Machine)
  {
    && Spaced(m.attempts)
    && (m.attempts != [] ==> m.attempts[|m.attempts| - 1].time <= m.clock)
    && (m.slot.None? ==> m.streak == 0)
    && (m.slot.Some? ==>
          var s := m.slot.value;
          && AtRest(s)
          && m.attempts != []
          && s.failures == Min(m.streak, U32_MAX)
          && (!s.live ==>
                && m.lastFailure <= m.clock
                && m.lastFailure >= m.attempts[|m.attempts| - 1].time
                && s.nextRetry == Some(m.lastFailure + Wait(m.streak))))
  }

  lemma FailedMeans(s: Slot, streak: nat, now: nat)
    requires s.failures == Min(streak, U32_MAX)
    ensures var f := Failed(s, now);
      AtRest(f) && !f.live && f.failures == Min(streak + 1, U32_MAX)
      && f.nextRetry == Some(now + Wait(streak + 1)) && Wait(streak + 1) >= BACKOFF_BASE_MS
  {
    BackoffIsWait(streak + 1, Failed(s, now).failures);
  }

  lemma SpacedAppend(attempts: seq<Attempt>, a: Attempt)
    requires Spaced(attempts)
    requires a.bySupervisor ==> attempts != [] && a.time >= attempts[|attempts| - 1].time + BACKOFF_BASE_MS
    ensures Spaced(attempts + [a])
  {}

  lemma WantHealthy(m: Machine, e: Event)
    requires Healthy(m) && e.Want? && InTime(m, e)
    ensures Healthy(Step(m, e))
  {
    if !UpToDate(m.slot, e.config) {
      var base := if m.slot.Some? then m.slot.value else Slot(e.config, false, 0, None, None);
      FailedMeans(base.(desired := e.config, live := false), m.streak, e.known);
      SpacedAppend(m.attempts, Attempt(e.at, false));
    }
  }

  lemma TickHealthy(m: Machine, e: Event)
    requires Healthy(m) && e.Tick? && InTime(m, e)
    ensures Healthy(Step(m, e))
  {
    if m.slot.Some? {
      var s := m.slot.value;
      FailedMeans(s, m.streak, e.reaped);
      var crashed := s.live && e.exited;
      var r, streak := Reap(s, e.exited, e.reaped), if crashed then m.streak + 1 else m.streak;
      if !s.live { BackoffIsWait(m.streak, s.failures); }
      if Due(r, e.checked) {
        FailedMeans(r, streak, e.tried);
        SpacedAppend(m.attempts, Attempt(e.checked, true));
      }
    }
  }

  /** A tick makes exactly one attempt if the slot is down and due, or has just crashed and is due; else none. */
  lemma TickAttempts(m: Machine, e: Event)
    requires Healthy(m) && e.Tick? && InTime(m, e) && m.slot.Some?
    ensures var s := m.slot.value;
      var due := if s.live then e.exited && e.checked >= e.reaped + 100 else e.checked >= s.nextRetry.value;
      Step(m, e).attempts == if due then m.attempts + [Attempt(e.checked, true)] else m.attempts
    ensures Step(m, e).slot
      == Some(Supervise(m.slot.value, e.exited, e.reaped, e.checked, e.spawned, e.tried))
  {
    BackoffIsWait(1, 1);
  }

  /**
    Over any timed run of publishes, ticks, crashes, failed spawns and teardowns: at rest a
    slot is (live, 0 failures, no retry) or (down, at least 1 failure, retry set); every
    supervisor spawn comes at least 100 ms after the previous attempt of any kind; and after
    k consecutive failures the next try waits min(100 * 2^(k-1), 2000) ms.
   */
  lemma {:induction false} RunHealthy(events: seq<Event>)
    requires AllInTime(IDLE, events)
    ensures Healthy(Run(IDLE, events))
  {
    if events != [] {
      RunHealthy(events[..|events| - 1]);
      StepHealthy(Run(IDLE, events[..|events| - 1]), events[|events| - 1]);
    }
  }

  lemma StepHealthy(m: Machine, e: Event)
    requires Healthy(m) && InTime(m, e)
    ensures Healthy(Step(m, e)) && Step(m, e).clock == if e.Want? then e.known else if e.Tick? then e.tried else m.clock
  {
    match e {
      case Want(_, _, _, _) => WantHealthy(m, e);
      case Tick(_, _, _, _, _) => TickHealthy(m, e);
      case Learn(_) =>
      case Drop =>
    }
  }
}
