/** The py-ddns reconcile loop: bounded retry, the two cycle archetypes, and what they may persist.

    The provider, the resolver, the state file and the sleeper are seams.  What they do during a cycle
    is its weather: none of them fails, or each may fail at every call and a failed write may still
    land, or every provider call raises.  Someone else may change the record between calls. */
module Updater {
  import opened Common

  type Ip = nat

  // ---------------------------------------------------------------- bounded backoff

  const MAX_ATTEMPTS := 3
  const CONFIRM_RETRIES := 2

  function Min(a: real, b: real): real { if a < b then a else b }

  /** The pre-jitter delay after attempt i: 2 then 4 seconds, capped at 30, or the server's own
      Retry-After capped at 60. */
  function BackoffDelay(retryAfter: Option<real>, i: nat): real
    requires i < MAX_ATTEMPTS - 1
  {
    if retryAfter.Some? then Min(retryAfter.value, 60.0) else Min(if i == 0 then 2.0 else 4.0, 30.0)
  }

  /** Jitter of at most a fifth either way, never below zero; `factor` is the random draw in [-1, 1]. */
  function Jittered(delay: real, factor: real): real {
    Floored(delay, Spread(delay * 0.2, factor))
  }

  function Floored(delay: real, shift: real): real { if delay + shift < 0.0 then 0.0 else delay + shift }

  function Spread(span: real, factor: real): real { span * factor }

  lemma Product(a: real, b: real)
    requires a >= 0.0 && b >= 0.0
    ensures a * b >= 0.0
  {
  }

  lemma SpreadBounds(span: real, factor: real)
    requires -1.0 <= factor <= 1.0
    ensures span >= 0.0 ==> -span <= Spread(span, factor) <= span
    ensures span < 0.0 ==> span <= Spread(span, factor) <= -span
  {
    var a := if span >= 0.0 then span else -span;
    Product(a, 1.0 - factor);
    Product(a, 1.0 + factor);
    assert a * (1.0 - factor) == a - a * factor && a * (1.0 + factor) == a + a * factor;
    assert span < 0.0 ==> a * factor == -(span * factor);
  }

  lemma JitterOf(delay: real, factor: real)
    requires -1.0 <= factor <= 1.0
    ensures delay >= 0.0 ==> 0.8 * delay <= Jittered(delay, factor) <= 1.2 * delay
    ensures delay < 0.0 ==> Jittered(delay, factor) == 0.0
  {
    SpreadBounds(delay * 0.2, factor);
    hide Spread;
  }

  /** The server's last Retry-After so far, if it sent any. */
  ghost function LastHint(hints: seq<Option<real>>): Option<real> {
    if hints == [] then None
    else if hints[|hints| - 1].Some? then hints[|hints| - 1] else LastHint(hints[..|hints| - 1])
  }

  /** The hint in force after attempt i of a run whose first attempt is the log's entry `from`. */
  ghost function HintAfter(hints: seq<Option<real>>, from: nat, i: nat): Option<real>
    requires from + i < |hints|
  {
    LastHint(hints[from..from + i + 1])
  }

  /** A delay slept after attempt i, to within a fifth: without a Retry-After 2 seconds after the first
      attempt and 4 after the second, with one what it asks for, at most 60 and at least none. */
  ghost predicate IsDelay(slept: real, hint: Option<real>, i: nat) {
    && i < 2
    && match hint
       case None => if i == 0 then 1.6 <= slept <= 2.4 else 3.2 <= slept <= 4.8
       case Some(asked) =>
         if asked < 0.0 then slept == 0.0
         else if asked <= 60.0 then 0.8 * asked <= slept <= 1.2 * asked
         else 48.0 <= slept <= 72.0
  }

  /** Every delay slept is between 0 and 72 seconds, and within a fifth of its base. */
  lemma JitterBounds(retryAfter: Option<real>, i: nat, factor: real)
    requires i < MAX_ATTEMPTS - 1 && -1.0 <= factor <= 1.0
    ensures 0.0 <= Jittered(BackoffDelay(retryAfter, i), factor) <= 72.0
    ensures IsDelay(Jittered(BackoffDelay(retryAfter, i), factor), retryAfter, i)
  {
    JitterOf(BackoffDelay(retryAfter, i), factor);
  }

  // ---------------------------------------------------------------- the seams

  datatype Job = ReadJob | ApplyJob(ip: Option<Ip>)
  datatype Raised = Nothing | Transient(retryAfter: Option<real>) | Terminal | Unexpected

  datatype Seams = Calm | Rough | Outage(raised: Raised)

  /** The seams of one cycle, and whether nobody else changes the record during it. */
  datatype Weather = Weather(seams: Seams, still: bool)

  predicate IsWeather(w: Weather) { w.seams.Outage? ==> !w.seams.raised.Nothing? }

  const FAIR := Weather(Calm, true)

  /** What a call, or several, may do to a record nobody else touches: a read nothing, an API write only
      put the new address there. */
  predicate Moves(job: Job, w: Weather, api: bool, was: Option<Ip>, now: Option<Ip>) {
    w.still ==>
      && (job.ReadJob? ==> now == was)
      && (job.ApplyJob? && api && job.ip.Some? ==> now == was || now == job.ip)
  }

  lemma MovesOn(job: Job, w: Weather, api: bool, a: Option<Ip>, b: Option<Ip>, c: Option<Ip>)
    requires Moves(job, w, api, a, b) && Moves(job, w, api, b, c)
    ensures Moves(job, w, api, a, c)
  {
  }

  /** The provider and the DNS record it controls. */
  class Provider {
    const api: bool
    var record: Option<Ip>
    ghost var applies: nat
    ghost var queries: nat
    ghost var hints: seq<Option<real>>

    constructor (api: bool, record: Option<Ip>)
      ensures this.api == api && this.record == record && applies == queries == 0
    {
      this.api, this.record, applies, queries, hints := api, record, 0, 0, [];
    }

    /** A read reports the record; an API write replaces it; a callback lets the server choose. */
    method Call(job: Job, w: Weather) returns (raised: Raised, value: Option<Ip>)
      requires IsWeather(w)
      modifies this
      ensures w.seams.Calm? ==> raised.Nothing?
      ensures w.seams.Outage? ==> raised == w.seams.raised
      ensures applies == old(applies) + (if job.ApplyJob? then 1 else 0)
      ensures queries == old(queries) + (if job.ReadJob? then 1 else 0)
      ensures hints == old(hints) + [if raised.Transient? then raised.retryAfter else None]
      ensures Moves(job, w, api, old(record), record)
      ensures raised.Nothing? && job.ReadJob? ==> value == record
      ensures raised.Nothing? && job.ApplyJob? && api && job.ip.Some? ==> record == job.ip
    {
      if !w.still { record := *; }
      raised := *;
      if w.seams.Calm? { raised := Nothing; }
      if w.seams.Outage? { raised := w.seams.raised; }
      hints := hints + [if raised.Transient? then raised.retryAfter else None];
      value := record;
      match job
      case ReadJob => queries := queries + 1;
      case ApplyJob(ip) =>
        applies := applies + 1;
        var lands: bool := *;
        if api {
          if ip.Some? && (raised.Nothing? || lands) { record := ip; }
        } else if lands {
          record := *;
        }
    }
  }

  datatype Resolution = Resolved(ip: Ip) | NoRecord | QueryFailed

  // ---------------------------------------------------------------- RetryRunner

  datatype RunEnd = Succeeded | GaveUp | Escaped(raised: Raised)

  /** Delays in order, each within 72 seconds and the one its hint asks for. */
  ghost predicate AreDelays(slept: seq<real>, hints: seq<Option<real>>, from: nat) {
    && from + |slept| <= |hints|
    && forall i :: 0 <= i < |slept| ==> 0.0 <= slept[i] <= 72.0 && IsDelay(slept[i], HintAfter(hints, from, i), i)
  }

  lemma HeardMore(heard: seq<Option<real>>, now: seq<Option<real>>, before: nat, attempt: nat, slept: seq<real>)
    requires |heard| == before + attempt && |now| == |heard| + 1 && heard == now[..|heard|]
    requires AreDelays(slept, heard, before)
    ensures LastHint(now[before..]) == if now[|heard|].Some? then now[|heard|] else LastHint(heard[before..])
    ensures HintAfter(now, before, attempt) == LastHint(now[before..])
    ensures AreDelays(slept, now, before)
  {
    assert now[before..before + attempt + 1] == now[before..];
    assert now[before..][..attempt] == heard[before..];
    forall i | 0 <= i < |slept| ensures HintAfter(now, before, i) == HintAfter(heard, before, i) {
      assert now[before..before + i + 1] == heard[before..before + i + 1];
    }
  }

  lemma SleptMore(slept: seq<real>, hints: seq<Option<real>>, from: nat, delay: real)
    requires AreDelays(slept, hints, from) && |hints| == from + |slept| + 1
    requires 0.0 <= delay <= 72.0 && IsDelay(delay, HintAfter(hints, from, |slept|), |slept|)
    ensures AreDelays(slept + [delay], hints, from)
  {
  }

  class RetryRunner {
    var attempts: nat
    var slept: seq<real>

    constructor ()
      ensures attempts == 0 && slept == []
    {
      attempts, slept := 0, [];
    }

    /** The jittered delay after attempt i. */
    method Delay(retryAfter: Option<real>, i: nat) returns (delay: real)
      requires i < MAX_ATTEMPTS - 1
      ensures 0.0 <= delay <= 72.0 && IsDelay(delay, retryAfter, i)
    {
      var factor: real := *;
      if factor < -1.0 || factor > 1.0 { factor := 0.0; }
      JitterBounds(retryAfter, i, factor);
      delay := Jittered(BackoffDelay(retryAfter, i), factor);
    }

    /** Up to three attempts with a bounded delay between two; a stop during a delay ends the run
        before the next attempt, and only a transient failure is retried. */
    method Run(provider: Provider, job: Job, w: Weather) returns (end: RunEnd, value: Option<Ip>)
      requires attempts == 0 && slept == [] && IsWeather(w)
      modifies this, provider
      ensures 1 <= attempts <= 3 && (w.seams.Calm? ==> end.Succeeded? && attempts == 1)
      ensures w.seams.Outage? ==> !end.Succeeded?
      // each delay follows the server's latest Retry-After of this run, when it has sent one
      ensures |provider.hints| == |old(provider.hints)| + attempts
      ensures AreDelays(slept, provider.hints, |old(provider.hints)|)
      // the delays lie between attempts: one more only when the sleeper reported a stop
      ensures end.GaveUp? ==> |slept| == attempts || (attempts == 3 && |slept| == 2)
      ensures !end.GaveUp? ==> |slept| == attempts - 1
      ensures end.Escaped? ==> end.raised.Terminal? || end.raised.Unexpected?
      ensures provider.applies == old(provider.applies) + (if job.ApplyJob? then attempts else 0)
      ensures provider.queries == old(provider.queries) + (if job.ReadJob? then attempts else 0)
      ensures Moves(job, w, provider.api, old(provider.record), provider.record)
      ensures end.Succeeded? && job.ReadJob? ==> value == provider.record
      ensures end.Succeeded? && job.ApplyJob? && provider.api && job.ip.Some? ==> provider.record == job.ip
    {
      var retryAfter: Option<real> := None;
      value := None;
      ghost var before := |provider.hints|;
      assert LastHint(provider.hints[before..]) == None;
      assert (w.seams.Outage? ==> !w.seams.raised.Nothing?) && AreDelays(slept, provider.hints, before);
      assert Moves(job, w, provider.api, provider.record, provider.record);
      hide *;
      for attempt := 0 to MAX_ATTEMPTS
        invariant attempts == attempt && |slept| == attempt && (w.seams.Calm? ==> attempt == 0)
        invariant attempt <= MAX_ATTEMPTS - 1
        invariant |provider.hints| == before + attempt && retryAfter == LastHint(provider.hints[before..])
        invariant AreDelays(slept, provider.hints, before)
        invariant provider.applies == old(provider.applies) + (if job.ApplyJob? then attempt else 0)
        invariant provider.queries == old(provider.queries) + (if job.ReadJob? then attempt else 0)
        invariant Moves(job, w, provider.api, old(provider.record), provider.record)
      {
        attempts := attempts + 1;
        var raised;
        ghost var heard := provider.hints;
        ghost var held := provider.record;
        raised, value := provider.Call(job, w);
        MovesOn(job, w, provider.api, old(provider.record), held, provider.record);
        HeardMore(heard, provider.hints, before, attempt, slept);
        if raised.Nothing? { return Succeeded, value; }
        if !raised.Transient? { return Escaped(raised), None; }
        if raised.retryAfter.Some? { retryAfter := raised.retryAfter; }
        if attempt == MAX_ATTEMPTS - 1 { return GaveUp, None; }
        var delay := Delay(retryAfter, attempt);
        SleptMore(slept, provider.hints, before, delay);
        slept := slept + [delay];
        var stop: bool := *;
        if stop { return GaveUp, None; }
      }
    }
  }

  // ---------------------------------------------------------------- the updater

  class Updater {
    const drift: nat
    const provider: Provider
    var firstCycle: bool
    var lastDrift: int
    var persisted: Option<Ip>
    ghost var resolutions: seq<Resolution>

    constructor (drift: nat, provider: Provider, persisted: Option<Ip>, now: int)
      ensures this.drift == drift && this.provider == provider && this.persisted == persisted
      ensures firstCycle && lastDrift == now && resolutions == []
    {
      this.drift, this.provider, this.persisted, firstCycle, lastDrift := drift, provider, persisted, true, now;
      resolutions := [];
    }

    predicate DriftDue(now: int)
      reads `lastDrift
    {
      drift > 0 && now - lastDrift >= drift
    }

    /** An unreadable state file reads as no last-known value. */
    method ReadState(calm: bool) returns (v: Option<Ip>)
      ensures v == persisted || (v.None? && !calm)
    {
      var readable: bool := *;
      v := if calm || readable then persisted else None;
    }

    /** The state file is replaced whole or not at all. */
    method WriteState(ip: Ip, calm: bool) returns (ok: bool)
      modifies `persisted
      ensures calm ==> ok
      ensures persisted == if ok then Some(ip) else old(persisted)
    {
      ok := *;
      if calm { ok := true; }
      if ok { persisted := Some(ip); }
    }

    method Resolve(calm: bool) returns (r: Resolution)
      modifies `resolutions
      ensures resolutions == old(resolutions) + [r]
      ensures calm ==> r == if provider.record.Some? then Resolved(provider.record.value) else NoRecord
    {
      r := *;
      if calm { r := if provider.record.Some? then Resolved(provider.record.value) else NoRecord; }
      resolutions := resolutions + [r];
    }

    // -------------------------------------------------------------- API archetype

    /** One API cycle; `done` when no seam ended it early. */
    method CycleApi(detected: Option<Ip>, now: int, w: Weather) returns (done: bool)
      requires provider.api && IsWeather(w)
      modifies `lastDrift, `persisted, provider
      // a persisted value is one the record holds at that moment, and it is the detected one
      ensures persisted != old(persisted) ==> persisted == detected == provider.record
      ensures !done ==> persisted == old(persisted)
      ensures w.still ==> provider.record == old(provider.record) || provider.record == detected
      // nothing detected: nothing is read, applied or persisted
      ensures detected.None? ==>
                done && provider.applies == old(provider.applies) && provider.queries == old(provider.queries)
                && persisted == old(persisted) && lastDrift == old(lastDrift)
      // a completed authoritative cycle ends with record and last-known on the detected value,
      // and applies it only if the record held another
      ensures done && detected.Some? && (firstCycle || (drift > 0 && now - old(lastDrift) >= drift)) ==>
                && provider.record == persisted == detected && lastDrift == now
                && (w.still ==> (provider.applies == old(provider.applies) <==> old(provider.record) == detected))
      // a steady cycle on an unchanged value touches nothing at all
      ensures w.seams.Calm? && detected.Some? && !firstCycle && old(persisted) == detected
              && (drift == 0 || now - old(lastDrift) < drift) ==>
                && provider.applies == old(provider.applies) && provider.queries == old(provider.queries)
                && provider.record == old(provider.record) && persisted == old(persisted)
      // any other completed cycle on a changed value applies the detected value and persists it
      ensures done && detected.Some? && !firstCycle && old(persisted) != detected ==>
                && provider.record == persisted == detected
                && (drift == 0 || now - old(lastDrift) < drift ==> provider.applies > old(provider.applies))
      // the drift clock restarts at an authoritative read that worked, and nowhere else
      ensures lastDrift != old(lastDrift) ==>
                lastDrift == now && (firstCycle || (drift > 0 && now - old(lastDrift) >= drift))
      ensures old(provider.applies) <= provider.applies
      ensures w.still && provider.applies == old(provider.applies) ==> provider.record == old(provider.record)
      ensures w.seams.Calm? ==> done && provider.applies <= old(provider.applies) + 1
      // when the provider is out, an authoritative cycle never gets past its read
      ensures w.seams.Outage? && detected.Some? && (firstCycle || (drift > 0 && now - old(lastDrift) >= drift)) ==>
                !done && provider.applies == old(provider.applies)
    {
      if detected.None? { return true; }
      if firstCycle || DriftDue(now) {
        var runner := new RetryRunner();
        var end, current := runner.Run(provider, ReadJob, w);
        if !end.Succeeded? { return false; }
        lastDrift := now;
        if current == detected {
          done := WriteState(detected.value, w.seams.Calm?);
          return;
        }
      } else {
        var lastKnown := ReadState(w.seams.Calm?);
        if lastKnown == detected { return true; }
      }
      var runner := new RetryRunner();
      var end, _ := runner.Run(provider, ApplyJob(detected), w);
      if !end.Succeeded? { return false; }
      done := WriteState(detected.value, w.seams.Calm?);
    }

    // -------------------------------------------------------------- callback archetype

    /** One callback cycle: `fired` when the provider was called. */
    method CycleCallback(detected: Option<Ip>, now: int, w: Weather) returns (done: bool, fired: bool)
      requires !provider.api && IsWeather(w)
      modifies `lastDrift, `persisted, `resolutions, provider
      ensures old(resolutions) <= resolutions && fired == (provider.applies > old(provider.applies))
      // a fire is held back only in a steady cycle, when the name has just resolved to the last-known value
      ensures !fired ==>
                && done && !firstCycle && (drift == 0 || now - old(lastDrift) < drift) && old(persisted).Some?
                && (detected.None? || detected == old(persisted))
                && resolutions == old(resolutions) + [Resolved(old(persisted).value)]
                && persisted == old(persisted) && provider.record == old(provider.record)
      ensures lastDrift == if drift > 0 && now - old(lastDrift) >= drift then now else old(lastDrift)
      ensures Confirmed(old(persisted), persisted, resolutions, done)
      ensures persisted != old(persisted) ==> fired && done
      ensures fired && done && |resolutions| > |old(resolutions)| ==>
                Answered(old(persisted), persisted, resolutions[|resolutions| - 1])
      // the confirmation asks at most three times, again only after a failed query
      ensures |resolutions| <= |old(resolutions)| + 4
      ensures w.seams.Calm? ==> done && (fired && provider.record.Some? ==> persisted == provider.record)
    {
      var lastKnown := ReadState(w.seams.Calm?);
      var drifting := DriftDue(now);
      if drifting { lastDrift := now; }
      if !firstCycle && !drifting && lastKnown.Some? && (detected.None? || detected == lastKnown) {
        var r := Resolve(w.seams.Calm?);
        if r == Resolved(lastKnown.value) { return true, false; }
      }
      fired := true;
      done := FireAndConfirm(detected, w);
    }

    /** Only the value the last, post-fire resolve returned is ever persisted, and by a completed cycle. */
    static ghost predicate Confirmed(was: Option<Ip>, now: Option<Ip>, resolutions: seq<Resolution>, done: bool) {
      now != was ==>
        done && now.Some? && |resolutions| > 0 && resolutions[|resolutions| - 1] == Resolved(now.value)
    }

    /** What a last answer leaves as last-known. */
    static ghost predicate Answered(was: Option<Ip>, now: Option<Ip>, answer: Resolution) {
      now == if answer.Resolved? then Some(answer.ip) else was
    }

    /** Fire the callback, then ask until an answer or the retries end, and persist a resolved one. */
    method FireAndConfirm(detected: Option<Ip>, w: Weather) returns (done: bool)
      requires !provider.api && IsWeather(w)
      modifies `persisted, `resolutions, provider
      ensures old(resolutions) <= resolutions && provider.applies > old(provider.applies)
      ensures Confirmed(old(persisted), persisted, resolutions, done)
      ensures done ==>
                && |resolutions| > |old(resolutions)|
                && Answered(old(persisted), persisted, resolutions[|resolutions| - 1])
      ensures forall i :: |old(resolutions)| <= i < |resolutions| - 1 ==> resolutions[i].QueryFailed?
      ensures |resolutions| <= |old(resolutions)| + 3
      ensures done ==> |resolutions| == |old(resolutions)| + 3 || !resolutions[|resolutions| - 1].QueryFailed?
      ensures w.seams.Calm? ==> done && (provider.record.Some? ==> persisted == provider.record)
    {
      var runner := new RetryRunner();
      var end, _ := runner.Run(provider, ApplyJob(detected), w);
      if !end.Succeeded? { return false; }
      ghost var asked := |resolutions|;
      var outcome := Resolve(w.seams.Calm?);
      var retries := 0;
      while outcome.QueryFailed? && retries < CONFIRM_RETRIES
        modifies `resolutions
        invariant retries <= CONFIRM_RETRIES && |resolutions| == asked + 1 + retries
        invariant old(resolutions) <= resolutions && resolutions[|resolutions| - 1] == outcome
        invariant forall i :: asked <= i < |resolutions| - 1 ==> resolutions[i].QueryFailed?
        invariant w.seams.Calm? ==>
                    outcome == if provider.record.Some? then Resolved(provider.record.value) else NoRecord
      {
        retries := retries + 1;
        outcome := Resolve(w.seams.Calm?);
      }
      done := true;
      if outcome.Resolved? { done := WriteState(outcome.ip, w.seams.Calm?); }
    }

    /** One cycle of either archetype; nothing escapes it, and the first cycle is over after it. */
    method RunOnce(detected: Option<Ip>, now: int, w: Weather) returns (done: bool)
      requires IsWeather(w)
      modifies this, provider
      ensures !firstCycle && old(resolutions) <= resolutions
      ensures !done ==> persisted == old(persisted)
      ensures w.seams.Calm? ==> done
      ensures provider.api ==>
                && (persisted != old(persisted) ==> persisted == detected == provider.record)
                && (w.still ==> provider.record == old(provider.record) || provider.record == detected)
                && old(provider.applies) <= provider.applies
                && (w.still && provider.applies == old(provider.applies) ==> provider.record == old(provider.record))
      ensures provider.api && detected.Some? ==>
                && (done && (old(firstCycle) || (drift > 0 && now - old(lastDrift) >= drift)
                             || old(persisted) != detected) ==>
                      provider.record == persisted == detected)
                && (w == FAIR && old(persisted) == old(provider.record) == detected ==>
                      provider.applies == old(provider.applies))
                && (w.seams.Calm? && !old(firstCycle) && (drift == 0 || now - old(lastDrift) < drift)
                    && old(persisted) == detected ==>
                      && provider.applies == old(provider.applies)
                      && provider.record == old(provider.record) && persisted == old(persisted))
                && (w.seams.Outage? && old(firstCycle) ==> !done && provider.applies == old(provider.applies))
      ensures !provider.api && persisted != old(persisted) ==>
                persisted.Some? && |resolutions| > 0 && resolutions[|resolutions| - 1] == Resolved(persisted.value)
    {
      if provider.api {
        done := CycleApi(detected, now, w);
      } else {
        var fired;
        done, fired := CycleCallback(detected, now, w);
      }
      firstCycle := false;
    }

    /** Convergence.  With nothing changing the record from outside and one detected value, a calm
        first cycle settles record and last-known on it, and no later cycle moves either, whatever
        fails; as long as the seams work, nothing is applied again. */
    method Converge(x: Ip, clocks: seq<int>, weather: seq<Weather>)
      requires provider.api && firstCycle && |clocks| == |weather| > 0 && weather[0] == FAIR
      requires forall i :: 0 <= i < |weather| ==> IsWeather(weather[i]) && weather[i].still
      modifies this, provider
      ensures provider.record == persisted == Some(x)
      ensures (forall i :: 0 <= i < |weather| ==> weather[i] == FAIR) ==>
                provider.applies == old(provider.applies) + (if old(provider.record) == Some(x) then 0 else 1)
    {
      var done := CycleApi(Some(x), clocks[0], FAIR);
      firstCycle := false;
      ghost var applied := provider.applies;
      for i := 1 to |clocks|
        invariant provider.record == persisted == Some(x) && !firstCycle
        invariant (forall j :: 0 <= j < |weather| ==> weather[j] == FAIR) ==> provider.applies == applied
      {
        done := RunOnce(Some(x), clocks[i], weather[i]);
      }
    }

    /** With drift checks off, fair cycles after the first leave the record on the detected value
        exactly when it was there already or last-known was on another value. */
    method LaterCycles(x: Ip, clocks: seq<int>)
      requires provider.api && !firstCycle && drift == 0 && clocks != []
      modifies this, provider
      ensures !firstCycle && persisted == Some(x)
      ensures provider.record == Some(x) <==> old(provider.record) == Some(x) || old(persisted) != Some(x)
      ensures provider.record == Some(x) || provider.record == old(provider.record)
    {
      for i := 0 to |clocks|
        invariant !firstCycle && (i > 0 ==> persisted == Some(x))
        invariant i == 0 ==> provider.record == old(provider.record) && persisted == old(persisted)
        invariant i > 0 ==>
                    (provider.record == Some(x) <==> old(provider.record) == Some(x) || old(persisted) != Some(x))
        invariant provider.record == Some(x) || provider.record == old(provider.record)
      {
        var _ := RunOnce(Some(x), clocks[i], FAIR);
      }
    }

    /** The startup self-heal, with drift checks off: a first cycle of any outcome, then fair ones.  A
        first cycle that applied nothing, one whose read failed among them, leaves what was there: the
        record is healed exactly when it was right to begin with or last-known was on another value. */
    method StartupHeals(x: Ip, now: int, first: Weather, clocks: seq<int>) returns (ghost applied: nat)
      requires provider.api && firstCycle && drift == 0 && IsWeather(first) && first.still && clocks != []
      modifies this, provider
      ensures !firstCycle && persisted == Some(x)
      ensures applied == 0 ==>
                (provider.record == Some(x) <==> old(provider.record) == Some(x) || old(persisted) != Some(x))
      ensures first.seams.Outage? ==> applied == 0
      ensures first.seams.Calm? ==> provider.record == Some(x)
      ensures provider.record == Some(x) || provider.record == old(provider.record)
    {
      ghost var before := provider.applies;
      var _ := RunOnce(Some(x), now, first);
      applied := provider.applies - before;
      LaterCycles(x, clocks);
    }
  }

  /** One such start: the address is 1 and the last-known file says so, the record still says 2, and the
      provider refuses the first cycle's read.  The record stays at 2 however many fair cycles follow. */
  method StaleRecordStays(clocks: seq<int>) returns (record: Option<Ip>)
    requires clocks != []
    ensures record == Some(2)
  {
    var provider := new Provider(true, Some(2));
    var updater := new Updater(0, provider, Some(1), 0);
    ghost var applied := updater.StartupHeals(1, 0, Weather(Outage(Terminal), true), clocks);
    record := provider.record;
  }
}
