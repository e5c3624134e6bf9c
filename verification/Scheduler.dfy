/** The py-weather polling loop: the earliest due station is polled, then rescheduled by what the
    poll found. */
module Scheduler {
  import opened Common
  import opened Cadence

  // ---------------------------------------------------------------- runs of the loop

  /** One turn: which station was polled, when its poll began and ended, and its rest. */
  datatype Poll = Poll(key: string, at: real, done: real, delay: int)

  ghost predicate IsEarliest(next: map<string, real>, key: string) {
    key in next && forall k :: k in next ==> next[key] <= next[k]
  }

  /** `next[i]` is the schedule before poll i; the last one is current. */
  ghost predicate IsRun(next: seq<map<string, real>>, polls: seq<Poll>) {
    && |next| == |polls| + 1
    && (forall i :: 0 <= i < |polls| ==> TurnOk(next[i], polls[i], next[i + 1]))
    && (forall i, j :: 0 <= i < j < |polls| ==> polls[i].done <= polls[j].at)
  }

  /** No station is polled before its due time, and each is rescheduled past the end of its poll. */
  ghost predicate TurnOk(before: map<string, real>, p: Poll, after: map<string, real>) {
    && IsEarliest(before, p.key) && before[p.key] <= p.at <= p.done && p.delay > 0
    && after == before[p.key := p.done + p.delay as real]
  }

  /** Stations polled from turn `from` up to `til`. */
  ghost function Polled(polls: seq<Poll>, from: nat, til: nat): set<string>
    requires from <= til <= |polls|
  {
    set i | from <= i < til :: polls[i].key
  }

  lemma PolledSnoc(polls: seq<Poll>, from: nat, til: nat)
    requires from < til <= |polls|
    ensures Polled(polls, from, til) == Polled(polls, from, til - 1) + {polls[til - 1].key}
  {
  }

  lemma {:induction false} OthersOnce(next: seq<map<string, real>>, polls: seq<Poll>, a: string, from: nat, til: nat)
    requires IsRun(next, polls) && from <= til <= |polls|
    requires a in next[from] && (from < til ==> next[from][a] <= polls[from].at)
    requires forall i :: from <= i < til ==> polls[i].key != a
    ensures next[til].Keys == next[from].Keys && next[til][a] == next[from][a]
    ensures Polled(polls, from, til) <= next[from].Keys - {a} && |Polled(polls, from, til)| == til - from
    ensures forall k :: k in Polled(polls, from, til) ==> next[til][k] > next[from][a]
    decreases til - from
  {
    if from < til {
      OthersOnce(next, polls, a, from, til - 1);
      RunHolds(next, polls, from, til - 1);
      PolledSnoc(polls, from, til);
      hide Polled, IsRun, TurnOk, IsEarliest;
      TurnPassesOver(next[til - 1], polls[til - 1], next[til], a, Polled(polls, from, til - 1));
    }
  }

  lemma RunHolds(next: seq<map<string, real>>, polls: seq<Poll>, i: nat, j: nat)
    requires IsRun(next, polls) && i <= j < |polls|
    ensures j + 1 < |next| && TurnOk(next[j], polls[j], next[j + 1]) && polls[i].at <= polls[j].at
  {
    assert TurnOk(next[i], polls[i], next[i + 1]);
    assert TurnOk(next[j], polls[j], next[j + 1]);
  }

  /** A turn that polls another station than an overdue one polls none already behind that one, and
      puts it behind it too. */
  lemma TurnPassesOver(before: map<string, real>, p: Poll, after: map<string, real>, a: string, seen: set<string>)
    requires TurnOk(before, p, after) && a in before && p.key != a && before[a] <= p.at
    requires seen <= before.Keys - {a} && forall k :: k in seen ==> before[k] > before[a]
    ensures after.Keys == before.Keys && after[a] == before[a]
    ensures |seen + {p.key}| == |seen| + 1 && seen + {p.key} <= before.Keys - {a}
    ensures forall k :: k in seen + {p.key} ==> after[k] > before[a]
  {
    assert before[p.key] <= before[a];
    assert p.key !in seen;
  }

  /** Once a station is overdue, at most n - 1 polls of other stations happen before its own. */
  lemma OverdueIsPolledSoon(next: seq<map<string, real>>, polls: seq<Poll>, a: string, from: nat, til: nat)
    requires IsRun(next, polls) && from < til <= |polls| && a in next[from]
    requires next[from][a] <= polls[from].at
    requires forall i :: from <= i < til ==> polls[i].key != a
    ensures til - from <= |next[from].Keys| - 1
  {
    OthersOnce(next, polls, a, from, til);
    SubsetSize(Polled(polls, from, til), next[from].Keys - {a});
    assert |next[from].Keys - {a}| == |next[from].Keys| - 1;
  }

  lemma RunStarts(first: map<string, real>)
    ensures IsRun([first], [])
  {
  }

  lemma RunExtends(next: seq<map<string, real>>, polls: seq<Poll>, p: Poll, after: map<string, real>)
    requires IsRun(next, polls) && TurnOk(next[|polls|], p, after)
    requires forall i :: 0 <= i < |polls| ==> polls[i].done <= p.at
    ensures IsRun(next + [after], polls + [p])
  {
  }

  // ---------------------------------------------------------------- one poll

  /** What one poll of a station came to. */
  datatype Read = Online(obstime: Option<string>) | Offline | TerminalFault | TransientFault

  function Tail(events: seq<string>): seq<string> {
    if |events| <= WINDOW then events else events[|events| - WINDOW..]
  }

  function BootWindow(boot: map<string, seq<string>>, key: string): seq<string> { if key in boot then boot[key]
    else [] }

  function LastOf(events: seq<string>): Option<string> { if events == [] then None else Some(events[|events| - 1]) }

  function FirstPoll(now: real, stagger: real, index: nat): real { now + index as real * stagger }

  class Scheduler {
    const minInterval: int
    const maxBackoff: int
    const parse: string -> Option<real>
    const stations: seq<string>

    var nextPoll: map<string, real>
    var cadence: map<string, seq<string>>
    var lastObstime: map<string, Option<string>>
    var clock: real

    ghost var next: seq<map<string, real>>
    ghost var polls: seq<Poll>

    ghost predicate Valid()
      reads this
    {
      && |next| == |polls| + 1
      && 60 <= minInterval <= MAX_INTERVAL && 60 <= maxBackoff
      && stations != [] && (forall k :: k in stations <==> k in nextPoll)
      && (forall k :: k in stations ==> k in cadence && k in lastObstime)
      && IsRun(next, polls) && next[|polls|] == nextPoll
      && (forall i :: 0 <= i < |polls| ==> polls[i].done <= clock)
    }

    /** Staggered first polls; each cadence window resumes from the boot state, its tail the last seen. */
    constructor (stations: seq<string>, boot: map<string, seq<string>>, now: real, stagger: real,
                 minInterval: int, maxBackoff: int, parse: string -> Option<real>)
      requires stations != [] && 60 <= minInterval <= MAX_INTERVAL && 60 <= maxBackoff
      requires forall i, j :: 0 <= i < j < |stations| ==> stations[i] != stations[j]
      ensures Valid() && polls == [] && this.stations == stations && clock == now
      ensures forall i :: 0 <= i < |stations| ==> nextPoll[stations[i]] == now + i as real * stagger
      ensures forall k :: k in stations ==>
                && cadence[k] == (if k in boot then boot[k] else [])
                && lastObstime[k] == if k in boot && boot[k] != [] then Some(boot[k][|boot[k]| - 1]) else None
    {
      FirstPollsAre(now, stagger);
      BootMeans(boot);
      hide IsRun, FirstPoll, BootWindow, LastOf;
      var first := FirstPolls(stations, now, stagger);
      this.stations, this.minInterval, this.maxBackoff, this.parse, clock :=
          stations, minInterval, maxBackoff, parse, now;
      nextPoll, next, polls := first, [first], [];
      cadence := map k | k in stations :: BootWindow(boot, k);
      lastObstime := map k | k in stations :: LastOf(BootWindow(boot, k));
      new;
      RunStarts(first);
    }

    static lemma FirstPollsAre(now: real, stagger: real)
      ensures forall i: nat :: FirstPoll(now, stagger, i) == now + i as real * stagger
    {
    }

    static lemma BootMeans(boot: map<string, seq<string>>)
      ensures forall k :: BootWindow(boot, k) == if k in boot then boot[k] else []
      ensures forall k :: LastOf(BootWindow(boot, k)) ==
                if k in boot && boot[k] != [] then Some(boot[k][|boot[k]| - 1]) else None
    {
    }

    static method FirstPolls(stations: seq<string>, now: real, stagger: real) returns (first: map<string, real>)
      requires forall i, j :: 0 <= i < j < |stations| ==> stations[i] != stations[j]
      ensures forall k :: k in first <==> k in stations
      ensures forall i :: 0 <= i < |stations| ==> first[stations[i]] == FirstPoll(now, stagger, i)
    {
      hide FirstPoll;
      first := map[];
      for i := 0 to |stations|
        invariant forall k :: k in first <==> k in stations[..i]
        invariant forall j :: 0 <= j < i ==> stations[j] in first && first[stations[j]] == FirstPoll(now, stagger, j)
      {
        assert stations[..i + 1] == stations[..i] + [stations[i]];
        first := first[stations[i] := FirstPoll(now, stagger, i)];
      }
      assert stations[..|stations|] == stations;
    }

    /** The observation time is one the station's window has not just learned. */
    predicate IsNews(read: Read, last: Option<string>) {
      read.Online? && read.obstime.Some? && read.obstime != last
    }

    /** What a poll teaches: a new observation time joins the window, whose last six are kept; any
        other outcome, and every other station, leaves the windows alone. */
    ghost predicate Learned(key: string, read: Read,
                            was: map<string, seq<string>>, wasLast: map<string, Option<string>>,
                            now: map<string, seq<string>>, nowLast: map<string, Option<string>>)
      requires key in was && key in wasLast
    {
      if read.Online? && read.obstime.Some? && read.obstime != wasLast[key] then
        var window := was[key] + [read.obstime.value];
        && now == was[key := if |window| <= 6 then window else window[|window| - 6..]]
        && nowLast == wasLast[key := read.obstime]
      else now == was && nowLast == wasLast
    }

    /** The four rests: the jittered learned interval of the window after an online poll, a day for an
        offline station, the two backoffs for faults. */
    ghost predicate IsRest(read: Read, window: seq<string>, delay: int, jitter: real) {
      match read
      case Online(_) =>
        exists base :: IsLearned(window, parse, minInterval, base)
            && 0.85 * base as real <= jitter <= 1.15 * base as real && IsNearest(jitter, delay)
      case Offline => delay == 86400
      case TerminalFault => delay == maxBackoff
      case TransientFault => delay == minInterval
    }

    /** One poll: learn, then rest. */
    method PollStation(key: string, read: Read) returns (delay: int, ghost jitter: real)
      requires Valid() && key in stations
      modifies `cadence, `lastObstime
      ensures Valid() && delay >= 51
      ensures Learned(key, read, old(cadence), old(lastObstime), cadence, lastObstime)
      ensures IsRest(read, cadence[key], delay, jitter)
    {
      hide IsRun, IsLearned, IsNearest, BaseInterval, Gaps, Parsed, Round;
      jitter := 0.0;
      match read
      case TerminalFault => delay := maxBackoff;
      case TransientFault => delay := minInterval;
      case Offline => delay := OFFLINE_REPROBE;
      case Online(obstime) =>
        if IsNews(read, lastObstime[key]) {
          cadence := cadence[key := Tail(cadence[key] + [obstime.value])];
          lastObstime := lastObstime[key := obstime];
        }
        var gaps := Gaps(Parsed(cadence[key], parse));
        var base := BaseInterval(gaps, minInterval);
        BaseIntervalBounds(gaps, minInterval);
        LearnedIs(cadence[key], parse, minInterval);
        var draw: real := *;
        if !IsJitterOf(draw, base) { draw := base as real; }
        ScheduledInterval(gaps, minInterval, draw);
        delay, jitter := Round(draw), draw;
    }

    method Earliest() returns (key: string)
      requires Valid()
      ensures IsEarliest(nextPoll, key) && key in stations
    {
      key := stations[0];
      for i := 1 to |stations|
        invariant key in stations && key in nextPoll
        invariant forall j :: 0 <= j < i ==> nextPoll[key] <= nextPoll[stations[j]]
      {
        if nextPoll[stations[i]] < nextPoll[key] { key := stations[i]; }
      }
      forall k | k in nextPoll ensures nextPoll[key] <= nextPoll[k] {
        var j :| 0 <= j < |stations| && stations[j] == k;
      }
    }

    /** One turn of the loop: read the clock, sleep to the earliest due station unless stopped, poll it
        and reschedule it from the clock after the poll. */
    method Turn(now: real, stop: bool, read: Read) returns (polled: Option<string>, ghost jitter: real)
      requires Valid() && clock <= now
      modifies this
      ensures Valid() && old(polls) <= polls
      ensures stop ==> polled.None? && unchanged(this)
      ensures !stop ==>
                && polled.Some? && |polls| == |old(polls)| + 1
                && var p := polls[|old(polls)|];
                   && p.key == polled.value && p.at >= now && clock == p.done && p.key in stations
                   && TurnOk(old(nextPoll), p, nextPoll)
                   && Learned(p.key, read, old(cadence), old(lastObstime), cadence, lastObstime)
                   && IsRest(read, cadence[p.key], p.delay, jitter)
    {
      hide IsRun, TurnOk, Learned, IsRest;
      jitter := 0.0;
      var due := Earliest();
      if stop { return None, jitter; }
      var wait := if nextPoll[due] > now then nextPoll[due] - now else 0.0;
      var slept: real := *;
      if slept < now + wait { slept := now + wait; }
      var done: real := *;
      if done < slept { done := slept; }
      var delay;
      delay, jitter := PollStation(due, read);
      Reschedule(due, slept, done, delay);
      polled := Some(due);
    }

    /** The poll of the earliest station ends; its next one is due a positive delay later. */
    method Reschedule(due: string, slept: real, done: real, delay: int)
      requires Valid() && IsEarliest(nextPoll, due) && delay > 0
      requires clock <= slept <= done && nextPoll[due] <= slept
      modifies `nextPoll, `clock, `next, `polls
      ensures Valid() && clock == done && polls == old(polls) + [Poll(due, slept, done, delay)]
      ensures TurnOk(old(nextPoll), polls[|old(polls)|], nextPoll)
    {
      hide IsRun;
      ghost var p := Poll(due, slept, done, delay);
      var after := nextPoll[due := done + delay as real];
      RunExtends(next, polls, p, after);
      clock, nextPoll := done, after;
      next, polls := next + [after], polls + [p];
    }
  }
}
