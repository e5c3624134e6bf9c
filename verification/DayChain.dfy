/** Walks over a site's day records: P1 returns one record by date or by instant, and the walks
    must agree with a plain filter over all of them. */
module DayChain {
  import opened Common

  /** Instants are microseconds from an epoch at UTC midnight; dates count days from it. */
  const DAY := 86400 * 1000000

  datatype Record = Record(date: int, start: int, end: int, done: bool, closed: bool, doneAt: Option<int>)

  /** Records follow one another without a gap, one date apart. */
  ghost predicate Chain(days: seq<Record>) {
    && (forall i :: 0 <= i < |days| ==> days[i].start < days[i].end)
    && (forall i :: 0 <= i < |days| - 1 ==> days[i + 1].date == days[i].date + 1 && days[i + 1].start == days[i].end)
  }

  function UtcDate(t: int): int { t / DAY }

  /** A day starts on its local date in UTC, or on the date before or after. */
  ghost predicate LocalDates(days: seq<Record>) {
    forall i :: 0 <= i < |days| ==>
      86_400_000_000 * days[i].date - 86_400_000_000 <= days[i].start
      && days[i].start < 86_400_000_000 * days[i].date + 172_800_000_000
  }

  lemma DatesAreNear(days: seq<Record>, i: nat)
    requires LocalDates(days) && i < |days|
    ensures UtcDate(days[i].start) - 1 <= days[i].date <= UtcDate(days[i].start) + 1
  {
  }

  // ---------------------------------------------------------------- the reads P1 offers

  function DayRecord(days: seq<Record>, date: int): Option<Record> {
    if days == [] then None else if days[0].date == date then Some(days[0]) else DayRecord(days[1..], date)
  }

  function DayForInstant(days: seq<Record>, t: int): Option<Record> {
    if days == [] then None
    else if days[0].start <= t < days[0].end then Some(days[0]) else DayForInstant(days[1..], t)
  }

  /** The latest date such that it and every earlier record are done. */
  function ClosedThrough(days: seq<Record>): Option<int> {
    if days == [] || !days[0].done then None
    else if ClosedThrough(days[1..]).Some? then ClosedThrough(days[1..]) else Some(days[0].date)
  }

  lemma {:induction false} ByIndex(days: seq<Record>, i: nat, j: nat)
    requires Chain(days) && i <= j < |days|
    ensures days[j].date == days[i].date + (j - i) && days[i].start <= days[j].start && days[i].end <= days[j].end
    ensures i < j ==> days[i].end <= days[j].start
    decreases j - i
  {
    if i < j {
      ByIndex(days, i, j - 1);
      assert days[j - 1 + 1] == days[j];
    }
  }

  lemma ChainTail(days: seq<Record>)
    requires Chain(days) && days != []
    ensures Chain(days[1..])
  {
    assert forall i :: 0 <= i < |days| - 1 ==> days[1..][i] == days[i + 1];
  }

  lemma {:induction false} DayRecordIs(days: seq<Record>, date: int)
    requires Chain(days)
    ensures var i := if days == [] then 0 else date - days[0].date;
            DayRecord(days, date) == if 0 <= i < |days| then Some(days[i]) else None
    decreases |days|
  {
    if days != [] {
      ChainTail(days);
      DayRecordIs(days[1..], date);
      if |days| > 1 { ByIndex(days, 0, 1); }
    }
  }

  lemma DayRecordOf(days: seq<Record>, i: nat)
    requires Chain(days) && i < |days|
    ensures DayRecord(days, days[i].date) == Some(days[i])
  {
    ByIndex(days, 0, i);
    DayRecordIs(days, days[i].date);
  }

  lemma {:induction false} DayForInstantIs(days: seq<Record>, t: int)
    requires Chain(days)
    ensures DayForInstant(days, t).Some? ==>
              exists i :: 0 <= i < |days| && days[i].start <= t < days[i].end && DayForInstant(days, t) == Some(days[i])
    ensures DayForInstant(days, t).None? ==> forall i :: 0 <= i < |days| ==> !(days[i].start <= t < days[i].end)
    decreases |days|
  {
    if days != [] && !(days[0].start <= t < days[0].end) {
      ChainTail(days);
      DayForInstantIs(days[1..], t);
      if DayForInstant(days[1..], t).Some? {
        var i :| 0 <= i < |days| - 1 && days[1..][i].start <= t < days[1..][i].end
            && DayForInstant(days[1..], t) == Some(days[1..][i]);
        assert days[i + 1] == days[1..][i];
      } else {
        assert forall i :: 1 <= i < |days| ==> days[i] == days[1..][i - 1];
      }
    }
  }

  /** How many records at the front are done. */
  function DoneCount(days: seq<Record>): (n: nat)
    ensures n <= |days| && (forall i :: 0 <= i < n ==> days[i].done) && (n < |days| ==> !days[n].done)
  {
    if days == [] || !days[0].done then 0 else 1 + DoneCount(days[1..])
  }

  lemma {:induction false} ClosedThroughIs(days: seq<Record>)
    requires Chain(days)
    ensures var n := DoneCount(days); ClosedThrough(days) == if n == 0 then None else Some(days[n - 1].date)
    decreases |days|
  {
    if days != [] && days[0].done {
      ChainTail(days);
      ClosedThroughIs(days[1..]);
    }
  }

  // ---------------------------------------------------------------- the plain filters

  predicate Overlaps(r: Record, s: int, e: int) { s < e && r.start < e && s < r.end }

  function Overlapping(days: seq<Record>, s: int, e: int): seq<Record> {
    if days == [] then []
    else (if Overlaps(days[0], s, e) then [days[0]] else []) + Overlapping(days[1..], s, e)
  }

  function Undone(days: seq<Record>): seq<Record> {
    if days == [] then [] else (if days[0].done then [] else [days[0]]) + Undone(days[1..])
  }

  function Started(days: seq<Record>, now: int): seq<Record> {
    if days == [] then [] else (if days[0].start < now then [days[0]] else []) + Started(days[1..], now)
  }

  lemma {:induction false} OverlappingIsSlice(days: seq<Record>, s: int, e: int, lo: nat, hi: nat)
    requires lo <= hi <= |days|
    requires forall i :: 0 <= i < |days| ==> (Overlaps(days[i], s, e) <==> lo <= i < hi)
    ensures Overlapping(days, s, e) == days[lo..hi]
    decreases |days|
  {
    if days != [] {
      var rest := days[1..];
      assert forall i :: 0 <= i < |rest| ==> rest[i] == days[i + 1];
      if hi == 0 {
        OverlappingIsSlice(rest, s, e, 0, 0);
      } else if lo > 0 {
        OverlappingIsSlice(rest, s, e, lo - 1, hi - 1);
        assert rest[lo - 1..hi - 1] == days[lo..hi];
      } else {
        OverlappingIsSlice(rest, s, e, 0, hi - 1);
        assert days[0..hi] == [days[0]] + rest[0..hi - 1];
      }
    }
  }

  // ---------------------------------------------------------------- day_spans

  /** The oldest record overlapping a range, found by one of three walks. */
  method FirstOverlapping(days: seq<Record>, s: int, e: int) returns (r: Option<Record>, ghost lo: nat)
    requires Chain(days) && LocalDates(days) && s < e
    ensures r.None? ==> forall i :: 0 <= i < |days| ==> !Overlaps(days[i], s, e)
    ensures r.Some? ==> lo < |days| && r == Some(days[lo]) && Overlaps(days[lo], s, e)
    ensures r.Some? ==> forall i :: 0 <= i < lo ==> !Overlaps(days[i], s, e)
  {
    lo := 0;
    var held := DayForInstant(days, s);
    DayForInstantIs(days, s);
    if held.Some? {
      lo :| lo < |days| && days[lo].start <= s < days[lo].end && held == Some(days[lo]);
      forall i | 0 <= i < lo ensures !Overlaps(days[i], s, e) { ByIndex(days, i, lo); }
      return held, lo;
    }
    var last := DayForInstant(days, e - 1);
    DayForInstantIs(days, e - 1);
    if last.Some? {
      lo :| lo < |days| && days[lo].start <= e - 1 < days[lo].end && last == Some(days[lo]);
      r, lo := WalkDown(days, s, e, last.value, lo);
      return;
    }
    r, lo := WalkDates(days, s, e);
  }

  /** From the record that holds the range's last instant, down while records reach past its start. */
  method WalkDown(days: seq<Record>, s: int, e: int, from: Record, ghost at: nat)
    returns (r: Option<Record>, ghost lo: nat)
    requires Chain(days) && s < e && at < |days| && from == days[at] && from.start <= e - 1 < from.end
    ensures lo < |days| && r == Some(days[lo]) && Overlaps(days[lo], s, e)
    ensures forall i :: 0 <= i < lo ==> !Overlaps(days[i], s, e)
  {
    var last := from;
    lo := at;
    while true
      invariant lo < |days| && last == days[lo] && Overlaps(last, s, e)
      decreases lo
    {
      var earlier := DayRecord(days, last.date - 1);
      DayRecordIs(days, last.date - 1);
      ByIndex(days, 0, lo);
      if earlier.None? || earlier.value.end <= s {
        forall i | 0 <= i < lo ensures !Overlaps(days[i], s, e) { ByIndex(days, i, lo - 1); }
        return Some(last), lo;
      }
      last, lo := earlier.value, lo - 1;
      ByIndex(days, lo, lo + 1);
    }
  }

  /** Every record dated before a date has ended by an instant. */
  ghost predicate EndedBefore(days: seq<Record>, date: int, s: int) {
    forall i :: 0 <= i < |days| && days[i].date < date ==> days[i].end <= s
  }

  ghost predicate NoneHolds(days: seq<Record>, s: int) {
    forall i :: 0 <= i < |days| ==> !(days[i].start <= s < days[i].end)
  }

  lemma WalkStarts(days: seq<Record>, s: int)
    requires LocalDates(days) && NoneHolds(days, s)
    ensures EndedBefore(days, UtcDate(s) - 1, s)
  {
  }

  lemma WalkGoesOn(days: seq<Record>, date: int, s: int)
    requires Chain(days) && EndedBefore(days, date, s)
    requires DayRecord(days, date).Some? ==> DayRecord(days, date).value.end <= s
    ensures EndedBefore(days, date + 1, s)
  {
    forall i | 0 <= i < |days| && days[i].date < date + 1 ensures days[i].end <= s {
      if days[i].date == date { DayRecordOf(days, i); }
    }
  }

  lemma WalkFinds(days: seq<Record>, lo: nat, s: int, e: int)
    requires Chain(days) && s < e && lo < |days| && days[lo].end > s
    requires NoneHolds(days, s) && EndedBefore(days, days[lo].date, s)
    ensures forall i :: 0 <= i < lo ==> !Overlaps(days[i], s, e)
    ensures days[lo].start < e ==> Overlaps(days[lo], s, e)
    ensures days[lo].start >= e ==> forall i :: 0 <= i < |days| ==> !Overlaps(days[i], s, e)
  {
    forall i | 0 <= i < |days| ensures i < lo ==> days[i].end <= s
                               ensures lo < i ==> days[lo].start < days[i].start
    {
      if i < lo { ByIndex(days, i, lo); } else { ByIndex(days, lo, i); }
    }
  }

  lemma WalkEnds(days: seq<Record>, date: int, s: int, e: int)
    requires LocalDates(days) && EndedBefore(days, date, s) && date > UtcDate(e) + 1
    ensures forall i :: 0 <= i < |days| ==> !Overlaps(days[i], s, e)
  {
  }

  /** No record holds either end: date by date from the day before the start's UTC date. */
  method WalkDates(days: seq<Record>, s: int, e: int) returns (r: Option<Record>, ghost lo: nat)
    requires Chain(days) && LocalDates(days) && s < e && NoneHolds(days, s)
    ensures r.None? ==> forall i :: 0 <= i < |days| ==> !Overlaps(days[i], s, e)
    ensures r.Some? ==> lo < |days| && r == Some(days[lo]) && Overlaps(days[lo], s, e)
    ensures r.Some? ==> forall i :: 0 <= i < lo ==> !Overlaps(days[i], s, e)
  {
    hide *;
    lo := 0;
    var date := UtcDate(s) - 1;
    WalkStarts(days, s);
    while date <= UtcDate(e) + 1
      invariant EndedBefore(days, date, s)
    {
      var record := DayRecord(days, date);
      DayRecordIs(days, date);
      if record.Some? && record.value.end > s {
        lo := date - days[0].date;
        ByIndex(days, 0, lo);
        WalkFinds(days, lo, s, e);
        return if record.value.start < e then record else None, lo;
      }
      WalkGoesOn(days, date, s);
      date := date + 1;
    }
    WalkEnds(days, date, s, e);
    r := None;
  }

  /** The site's day records whose bounds overlap a range are exactly the plain filter, oldest first. */
  method DaySpans(days: seq<Record>, s: int, e: int) returns (spans: seq<Record>)
    requires Chain(days) && LocalDates(days)
    ensures spans == Overlapping(days, s, e)
  {
    hide LocalDates, UtcDate, Overlapping, DayRecord;
    spans := [];
    if e <= s {
      OverlappingIsSlice(days, s, e, 0, 0);
      return;
    }
    var record: Option<Record>;
    ghost var lo;
    record, lo := FirstOverlapping(days, s, e);
    if record.None? {
      OverlappingIsSlice(days, s, e, 0, 0);
      return;
    }
    ghost var at := lo;
    while record.Some? && record.value.start < e
      invariant lo <= at <= |days| && spans == days[lo..at]
      invariant record == if at < |days| then Some(days[at]) else None
      invariant forall i :: 0 <= i < at ==> (Overlaps(days[i], s, e) <==> lo <= i)
      decreases |days| - at
    {
      spans := spans + [record.value];
      ByIndex(days, lo, at);
      ByIndex(days, 0, at);
      DayRecordIs(days, record.value.date + 1);
      record := DayRecord(days, record.value.date + 1);
      at := at + 1;
    }
    forall i | at <= i < |days| ensures !Overlaps(days[i], s, e) { ByIndex(days, at, i); }
    OverlappingIsSlice(days, s, e, lo, at);
  }

  // ---------------------------------------------------------------- _undone_spans

  /** Nothing is done and the last record has already ended: then no record holds `now`. */
  predicate OutOfRecords(days: seq<Record>, now: int) {
    days != [] && !days[0].done && days[|days| - 1].end <= now
  }

  lemma {:induction false} UndoneStartedIs(days: seq<Record>, now: int, from: int)
    requires Chain(days)
    requires forall i :: 0 <= i < |days| && !days[i].done ==> from < days[i].end
    requires forall i :: 0 <= i < |days| && days[i].start < now && from < days[i].end ==> from < now
    ensures Undone(Overlapping(days, from, now)) == Undone(Started(days, now))
    decreases |days|
  {
    if days != [] {
      ChainTail(days);
      var rest := days[1..];
      assert forall i :: 0 <= i < |rest| ==> rest[i] == days[i + 1];
      UndoneStartedIs(rest, now, from);
      var r, o, t := days[0], Overlapping(rest, from, now), Started(rest, now);
      assert ([r] + o)[1..] == o && ([r] + t)[1..] == t;
      assert [] + o == o && [] + t == t && [] + Undone(o) == Undone(o);
    }
  }

  /** Where the undone days start: after the closed run, else at the first record, found by walking
      down from the one that holds `now`. */
  method UndoneFrom(days: seq<Record>, now: int) returns (from: Option<int>)
    requires Chain(days)
    ensures from.None? ==> OutOfRecords(days, now) || Started(days, now) == []
    ensures from.Some? ==>
              && !OutOfRecords(days, now)
              && (forall i :: 0 <= i < |days| && !days[i].done ==> from.value < days[i].end)
              && (forall i :: 0 <= i < |days| && days[i].start < now && from.value < days[i].end ==> from.value < now)
  {
    hide Chain, OutOfRecords;
    var through := ClosedThrough(days);
    ClosedThroughIs(days);
    if through.Some? {
      var n := DoneCount(days);
      DayRecordOf(days, n - 1);
      AfterClosedRun(days, now, n);
      return Some(DayRecord(days, through.value).value.end);
    }
    var first := DayForInstant(days, now);
    DayForInstantIs(days, now);
    if first.None? {
      NoRecordHolds(days, now);
      return None;
    }
    ghost var at :| 0 <= at < |days| && days[at].start <= now < days[at].end && first == Some(days[at]);
    var oldest := WalkToFirst(days, first.value, at);
    FromFirst(days, now, at);
    from := Some(oldest.start);
  }

  /** Past the end of the closed run lie exactly the records after it. */
  lemma AfterClosedRun(days: seq<Record>, now: int, n: nat)
    requires Chain(days) && 0 < n == DoneCount(days)
    ensures !OutOfRecords(days, now)
    ensures forall i :: 0 <= i < n ==> days[i].end <= days[n - 1].end
    ensures forall i :: n <= i < |days| ==> days[n - 1].end <= days[i].start < days[i].end
  {
    forall i | 0 <= i < n ensures days[i].end <= days[n - 1].end { ByIndex(days, i, n - 1); }
    forall i | n <= i < |days| ensures days[n - 1].end <= days[i].start < days[i].end { ByIndex(days, n - 1, i); }
  }

  /** From the first record's start on lies every record, when one holds `now`. */
  lemma FromFirst(days: seq<Record>, now: int, at: nat)
    requires Chain(days) && at < |days| && days[at].start <= now < days[at].end
    ensures !OutOfRecords(days, now)
    ensures forall i :: 0 <= i < |days| ==> days[0].start < days[i].end && days[0].start <= days[i].start
  {
    ByIndex(days, at, |days| - 1);
    forall i | 0 <= i < |days| ensures days[0].start < days[i].end && days[0].start <= days[i].start {
      ByIndex(days, 0, i);
    }
  }

  method WalkToFirst(days: seq<Record>, from: Record, ghost at: nat) returns (oldest: Record)
    requires Chain(days) && at < |days| && from == days[at]
    ensures oldest == days[0]
  {
    oldest := from;
    ghost var k: nat := at;
    ByIndex(days, 0, k);
    DayRecordIs(days, oldest.date - 1);
    var earlier := DayRecord(days, oldest.date - 1);
    while earlier.Some?
      invariant k < |days| && oldest == days[k]
      invariant earlier == if k == 0 then None else Some(days[k - 1])
      decreases k
    {
      oldest, k := earlier.value, k - 1;
      ByIndex(days, 0, k);
      DayRecordIs(days, oldest.date - 1);
      earlier := DayRecord(days, oldest.date - 1);
    }
  }

  /** The site's days that have started and are not done, unless the records have run out. */
  method UndoneSpans(days: seq<Record>, now: int) returns (spans: seq<Record>)
    requires Chain(days) && LocalDates(days)
    ensures spans == if OutOfRecords(days, now) then [] else Undone(Started(days, now))
  {
    var from := UndoneFrom(days, now);
    if from.None? { return []; }
    var read := DaySpans(days, from.value, now);
    UndoneStartedIs(days, now, from.value);
    spans := KeepUndone(read);
  }

  method KeepUndone(read: seq<Record>) returns (kept: seq<Record>)
    ensures kept == Undone(read)
  {
    kept := [];
    for i := |read| downto 0
      invariant kept == Undone(read[i..])
    {
      assert read[i..] == [read[i]] + read[i + 1..];
      if !read[i].done { kept := [read[i]] + kept; }
    }
  }

  lemma NoRecordHolds(days: seq<Record>, now: int)
    requires Chain(days) && DoneCount(days) == 0
    requires forall i :: 0 <= i < |days| ==> !(days[i].start <= now < days[i].end)
    ensures OutOfRecords(days, now) || Started(days, now) == []
  {
    if days != [] {
      if days[0].start <= now {
        AllEnded(days, now, |days| - 1);
      } else {
        forall i | 0 <= i < |days| ensures now < days[i].start { ByIndex(days, 0, i); }
        NoneStarted(days, now);
      }
    }
  }

  lemma {:induction false} AllEnded(days: seq<Record>, now: int, i: nat)
    requires Chain(days) && i < |days| && days[0].start <= now
    requires forall j :: 0 <= j < |days| ==> !(days[j].start <= now < days[j].end)
    ensures days[i].end <= now
    decreases i
  {
    if i > 0 {
      AllEnded(days, now, i - 1);
      assert days[i - 1 + 1].start == days[i - 1].end;
    }
  }

  lemma {:induction false} NoneStarted(days: seq<Record>, now: int)
    requires forall i :: 0 <= i < |days| ==> now <= days[i].start
    ensures Started(days, now) == []
    decreases |days|
  {
    if days != [] { NoneStarted(days[1..], now); }
  }

  /** The docstring's claim fails exactly when the records have run out with nothing done. */
  lemma UndoneSpansMissesExactly(days: seq<Record>, now: int)
    requires Chain(days)
    ensures (if OutOfRecords(days, now) then [] else Undone(Started(days, now))) == Undone(Started(days, now))
       <==> !OutOfRecords(days, now)
  {
    if OutOfRecords(days, now) {
      ByIndex(days, 0, |days| - 1);
      assert Started(days, now)[0] == days[0];
    }
  }

  /** One undone day that has ended, and no later record: it is not found. */
  lemma UndoneDayIsMissed()
    ensures var days := [Record(0, 0, DAY, false, false, None)];
            && Chain(days) && LocalDates(days) && OutOfRecords(days, DAY)
            && Undone(Started(days, DAY)) == days
  {
    var days := [Record(0, 0, DAY, false, false, None)];
    assert days[1..] == [];
    assert Started(days, DAY) == days;
  }

  // ---------------------------------------------------------------- _done_days

  predicate TooOld(r: Record, now: int, window: int) { r.doneAt.Some? && now - r.doneAt.value > window }

  /** A later day is never done earlier, over the days whose `done_at` reads. */
  ghost predicate DoneAtRises(days: seq<Record>) {
    forall i, j :: 0 <= i < j < |days| && days[i].done && days[j].done && days[i].doneAt.Some? && days[j].doneAt.Some?
      ==> days[i].doneAt.value <= days[j].doneAt.value
  }

  function Newest(days: seq<Record>): seq<Record> {
    if days == [] then [] else Newest(days[1..]) + [days[0]]
  }

  lemma NewestOfNone(days: seq<Record>)
    requires days == []
    ensures Newest(days) == []
  {
  }

  lemma NewestCons(r: Record, days: seq<Record>)
    ensures Newest([r] + days) == Newest(days) + [r]
  {
    assert ([r] + days)[1..] == days;
  }

  /** Once a day is too old, so is every earlier one whose `done_at` reads. */
  lemma EarlierTooOld(days: seq<Record>, now: int, window: int, at: nat)
    requires DoneAtRises(days) && at < DoneCount(days) && TooOld(days[at], now, window)
    ensures forall i :: 0 <= i <= at && days[i].doneAt.Some? ==> TooOld(days[i], now, window)
  {
  }

  /** The early-exit walk down from the latest done day: the newest of the done days, newest first. */
  method DoneDays(days: seq<Record>, now: int, window: int) returns (found: seq<Record>)
    requires Chain(days) && DoneAtRises(days)
    ensures var n := DoneCount(days); |found| <= n && found == Newest(days[n - |found|..n])
    // it keeps every done day whose done_at reads and is within the window, and no other that reads
    ensures KeptByAge(days[..DoneCount(days)], DoneCount(days) - |found|, now, window)
    // and stops only at the first record or at a day that is too old
    ensures |found| == DoneCount(days) || DoneBefore(days[DoneCount(days) - |found| - 1], now, window)
  {
    hide *;
    ClosedThroughIs(days);
    var newest := ClosedThrough(days);
    ghost var n := DoneCount(days);
    ghost var lo := n;
    found := [];
    NewestOfNone(days[n..n]);
    if newest.None? {
      InWindow(days, 0, 0, now, window);
      return;
    }
    var date := newest.value;
    ByIndex(days, 0, n - 1);
    while true
      invariant lo == n - |found| >= 0 && date == days[0].date + lo - 1 && found == Newest(days[lo..n])
      invariant forall i :: lo <= i < n ==> !TooOld(days[i], now, window)
      decreases lo
    {
      var record := DayRecord(days, date);
      DayRecordIs(days, date);
      if record.None? { break; }
      if TooOld(record.value, now, window) {
        EarlierTooOld(days, now, window, lo - 1);
        break;
      }
      NewestCons(days[lo - 1], days[lo..n]);
      assert days[lo - 1..n] == [days[lo - 1]] + days[lo..n];
      found := found + [record.value];
      date, lo := date - 1, lo - 1;
    }
    if lo > 0 { MeansDoneBefore(days[lo - 1], now, window); }
    InWindow(days, n, lo, now, window);
  }

  /** Of the days whose `done_at` reads, those from `lo` on were done within the window and no other was. */
  ghost predicate KeptByAge(days: seq<Record>, lo: int, now: int, window: int) {
    forall i :: 0 <= i < |days| && days[i].doneAt.Some? ==> (lo <= i <==> now - days[i].doneAt.value <= window)
  }

  ghost predicate DoneBefore(r: Record, now: int, window: int) {
    r.doneAt.Some? && now - r.doneAt.value > window
  }

  lemma MeansDoneBefore(r: Record, now: int, window: int)
    ensures TooOld(r, now, window) <==> DoneBefore(r, now, window)
  {
  }

  lemma InWindow(days: seq<Record>, n: nat, lo: nat, now: int, window: int)
    requires lo <= n <= |days|
    requires forall i :: 0 <= i < n && days[i].doneAt.Some? ==> (lo <= i <==> !TooOld(days[i], now, window))
    ensures KeptByAge(days[..n], lo, now, window)
  {
  }

  // ---------------------------------------------------------------- _site_nothing_usable

  datatype Variable = Temperature | Rain | Wind
  const STATION_VARIABLES := [Temperature, Rain, Wind]
  const STATION_NOTHING_USABLE_DAYS := 3

  /** One counted day of a station: its date and the variables with a usable value. */
  datatype Counted = Counted(date: int, usable: set<Variable>)

  datatype Finding = Finding(variables: seq<Variable>, since: int)

  /** The newest days, up to the first that has the variable. */
  method RunWithout(days: seq<Counted>, v: Variable) returns (run: nat)
    ensures run <= |days| && (forall i :: 0 <= i < run ==> v !in days[i].usable)
    ensures run < |days| ==> v in days[run].usable
  {
    run := 0;
    while run < |days| && v !in days[run].usable
      invariant run <= |days| && forall i :: 0 <= i < run ==> v !in days[i].usable
    {
      run := run + 1;
    }
  }

  ghost predicate NewestLack(days: seq<Counted>, v: Variable, n: nat) {
    n <= |days| && forall i :: 0 <= i < n ==> v !in days[i].usable
  }

  /** From `since` to the newest are n counted days, at least three, none with a named variable, and
      `since` is as early as that allows. */
  ghost predicate SinceIs(days: seq<Counted>, f: Finding, n: nat) {
    && 3 <= n <= |days| && days[n - 1].date == f.since
    && (forall i :: 0 <= i < |days| ==> (i < n <==> days[i].date >= f.since))
    && (forall v :: v in f.variables ==> NewestLack(days, v, n))
    && (n == |days| || exists v :: v in f.variables && v in days[n].usable)
  }

  /** The variables missing on the three newest counted days, and since when. */
  ghost predicate IsFinding(days: seq<Counted>, f: Finding) {
    && (forall v :: v in f.variables <==> NewestLack(days, v, 3))
    && exists n :: SinceIs(days, f, n)
  }

  ghost predicate HasFinding(days: seq<Counted>) { exists v :: NewestLack(days, v, 3) }

  ghost predicate NewestFirst(days: seq<Counted>) { forall i, j :: 0 <= i < j < |days| ==> days[i].date > days[j].date }

  /** The finding for one station, from its counted days newest first. */
  method NothingUsable(days: seq<Counted>) returns (f: Option<Finding>)
    requires NewestFirst(days)
    ensures f.Some? <==> HasFinding(days)
    ensures f.Some? ==> IsFinding(days, f.value)
  {
    var named: seq<Variable> := [];
    var since := 0;
    ghost var n: nat := |days|;
    for i := 0 to |STATION_VARIABLES|
      invariant forall v :: v in named <==>
                  v in STATION_VARIABLES[..i] && NewestLack(days, v, STATION_NOTHING_USABLE_DAYS)
      invariant named != [] ==> 3 <= n <= |days| && since == days[n - 1].date
      invariant named != [] ==> forall v :: v in named ==> NewestLack(days, v, n)
      invariant named != [] ==> n == |days| || exists v :: v in named && v in days[n].usable
    {
      var run := RunWithout(days, STATION_VARIABLES[i]);
      assert STATION_VARIABLES[..i + 1] == STATION_VARIABLES[..i] + [STATION_VARIABLES[i]];
      if run >= STATION_NOTHING_USABLE_DAYS {
        var start := days[run - 1].date;
        if named == [] || start > since { since := start; n := run; }
        named := named + [STATION_VARIABLES[i]];
      }
    }
    assert STATION_VARIABLES[..3] == STATION_VARIABLES;
    assert Temperature == STATION_VARIABLES[0] && Rain == STATION_VARIABLES[1] && Wind == STATION_VARIABLES[2];
    forall v ensures v in STATION_VARIABLES { assert v.Temperature? || v.Rain? || v.Wind?; }
    f := if named == [] then None else Some(Finding(named, since));
    if named != [] {
      assert named[0] in named;
      assert SinceIs(days, Finding(named, since), n);
    }
  }

  // ---------------------------------------------------------------- one site's findings

  datatype Station = Station(id: int)

  /** What the tables hold: the enabled stations; on a day, each station of its saved list with whether
      it was heard from at all (a reading or an answered try); and its usable variables that day. */
  datatype Tables = Tables(enabled: set<Station>, presence: Record -> map<Station, bool>,
                           usable: (Station, Record) -> set<Variable>)

  /** A closed day whose `done_at` reads counts for an enabled station that was heard from. */
  predicate Counts(t: Tables, r: Record, station: Station) {
    && r.closed && r.doneAt.Some? && station in t.enabled
    && station in t.presence(r) && t.presence(r)[station]
  }

  function CountedDay(t: Tables, r: Record, station: Station): Counted { Counted(r.date, t.usable(station, r)) }

  /** One station's counted days among records given newest first. */
  function CountedOf(t: Tables, found: seq<Record>, station: Station): seq<Counted> {
    if found == [] then []
    else
      var rest, r := CountedOf(t, found[..|found| - 1], station), found[|found| - 1];
      if Counts(t, r, station) then rest + [CountedDay(t, r, station)] else rest
  }

  /** The plain filter over records oldest first: of the closed days whose `done_at` reads and is within
      the window, those on which the enabled station was listed and heard from, newest first. */
  ghost function CountedIn(t: Tables, days: seq<Record>, now: int, window: int, station: Station): seq<Counted> {
    if days == [] then []
    else
      var later, r := CountedIn(t, days[1..], now, window, station), days[0];
      if && r.closed && r.doneAt.Some? && now - r.doneAt.value <= window
         && station in t.enabled && station in t.presence(r) && t.presence(r)[station]
      then later + [Counted(r.date, t.usable(station, r))]
      else later
  }

  lemma CountedInStep(t: Tables, days: seq<Record>, now: int, window: int, station: Station)
    requires days != []
    ensures CountedIn(t, days, now, window, station) ==
              CountedIn(t, days[1..], now, window, station)
              + if Counts(t, days[0], station) && !TooOld(days[0], now, window)
                then [CountedDay(t, days[0], station)] else []
  {
  }

  lemma {:induction false} CountedOfNewest(t: Tables, days: seq<Record>, now: int, window: int, station: Station)
    requires forall i :: 0 <= i < |days| ==> !TooOld(days[i], now, window)
    ensures CountedOf(t, Newest(days), station) == CountedIn(t, days, now, window, station)
    decreases |days|
  {
    if days != [] {
      hide Counts, TooOld;
      assert forall i :: 0 <= i < |days| - 1 ==> days[1..][i] == days[i + 1];
      CountedOfNewest(t, days[1..], now, window, station);
      var newest := Newest(days[1..]);
      assert (newest + [days[0]])[..|newest|] == newest;
    }
  }

  /** Days before the window count for nothing. */
  lemma {:induction false} TooOldCountsNothing(t: Tables, days: seq<Record>, lo: nat, now: int, window: int,
                                               station: Station)
    requires lo <= |days| && forall i :: 0 <= i < lo && days[i].doneAt.Some? ==> TooOld(days[i], now, window)
    ensures CountedIn(t, days, now, window, station) == CountedIn(t, days[lo..], now, window, station)
    decreases |days|
  {
    if lo > 0 {
      hide TooOld;
      assert forall i :: 0 <= i < lo - 1 ==> days[1..][i] == days[i + 1];
      TooOldCountsNothing(t, days[1..], lo - 1, now, window, station);
      assert days[1..][lo - 1..] == days[lo..];
    } else {
      assert days[0..] == days;
    }
  }

  lemma {:induction false} CountedDates(t: Tables, days: seq<Record>, now: int, window: int, station: Station)
    requires Chain(days)
    ensures NewestFirst(CountedIn(t, days, now, window, station))
    ensures forall c :: c in CountedIn(t, days, now, window, station) ==> days != [] && c.date >= days[0].date
    decreases |days|
  {
    if days != [] {
      ChainTail(days);
      CountedDates(t, days[1..], now, window, station);
      if |days| > 1 { ByIndex(days, 0, 1); }
      hide Chain, Counts, TooOld;
      var later := CountedIn(t, days[1..], now, window, station);
      assert forall i :: 0 <= i < |later| ==> later[i] in later;
    }
  }

  /** The dict of counted days: a key for every station with one, in the walk's order. */
  ghost predicate CountedMap(counted: map<Station, seq<Counted>>, t: Tables, found: seq<Record>) {
    forall st :: CountedOf(t, found, st) == if st in counted then counted[st] else []
  }

  /** One more record: its stations still to do are `todo`. */
  ghost predicate CountedPartly(counted: map<Station, seq<Counted>>, t: Tables, found: seq<Record>, r: Record,
                                todo: set<Station>)
  {
    forall st :: (if st in counted then counted[st] else []) == CountedOf(t, found, st) +
      if st !in todo && Counts(t, r, st) then [CountedDay(t, r, st)] else []
  }

  lemma CountedSnoc(t: Tables, found: seq<Record>, r: Record, station: Station)
    ensures CountedOf(t, found + [r], station) ==
              CountedOf(t, found, station) + if Counts(t, r, station) then [CountedDay(t, r, station)] else []
  {
    assert (found + [r])[..|found|] == found;
    assert CountedOf(t, found, station) + [] == CountedOf(t, found, station);
  }

  /** One record's stations. */
  method CountDay(t: Tables, r: Record, before: map<Station, seq<Counted>>, ghost found: seq<Record>)
    returns (counted: map<Station, seq<Counted>>)
    requires CountedMap(before, t, found)
    ensures CountedMap(counted, t, found + [r])
  {
    counted := before;
    if !r.closed || r.doneAt.None? {
      forall st ensures CountedOf(t, found + [r], st) == CountedOf(t, found, st) { CountedSnoc(t, found, r, st); }
      return;
    }
    var presence: map<Station, bool> := t.presence(r);
    var todo: set<Station> := presence.Keys;
    forall st ensures CountedOf(t, found, st) == CountedOf(t, found, st) + [] {}
    assert CountedPartly(counted, t, found, r, todo);
    while todo != {}
      invariant CountedPartly(counted, t, found, r, todo) && todo <= presence.Keys
    {
      var st: Station :| st in todo;
      CountStation(counted, t, found, r, todo, st);
      if st in t.enabled && presence[st] {
        counted := counted[st := (if st in counted then counted[st] else []) + [CountedDay(t, r, st)]];
      }
      todo := todo - {st};
    }
    forall st ensures CountedOf(t, found + [r], st) == if st in counted then counted[st] else [] {
      CountedSnoc(t, found, r, st);
    }
  }

  lemma CountStation(counted: map<Station, seq<Counted>>, t: Tables, found: seq<Record>, r: Record,
                     todo: set<Station>, st: Station)
    requires CountedPartly(counted, t, found, r, todo) && st in todo
    ensures Counts(t, r, st) ==>
              CountedPartly(counted[st := (if st in counted then counted[st] else []) + [CountedDay(t, r, st)]],
                            t, found, r, todo - {st})
    ensures !Counts(t, r, st) ==> CountedPartly(counted, t, found, r, todo - {st})
  {
    hide CountedOf, Counts;
    assert CountedOf(t, found, st) + [] == CountedOf(t, found, st);
  }

  /** Alert 3's findings for one site, by station: from the day walk on, each enabled station is judged by
      the plain list of its counted days, and named exactly when some variable is missing on the three
      newest of them. */
  method SiteNothingUsable(days: seq<Record>, now: int, window: int, t: Tables)
    returns (findings: map<Station, Finding>)
    requires Chain(days) && DoneAtRises(days)
    ensures forall st :: var counted := CountedIn(t, days[..DoneCount(days)], now, window, st);
              && (st in findings <==> HasFinding(counted))
              && (st in findings ==> IsFinding(counted, findings[st]))
  {
    var found := DoneDays(days, now, window);
    WalkCountsAll(days, found, now, window, t);
    ghost var done := days[..DoneCount(days)];
    hide *;
    var counted := CountDays(t, found);
    findings := FindAll(counted, done, now, window, t);
  }

  lemma WalkCountsAll(days: seq<Record>, found: seq<Record>, now: int, window: int, t: Tables)
    requires Chain(days) && |found| <= DoneCount(days)
    requires found == Newest(days[DoneCount(days) - |found|..DoneCount(days)])
    requires KeptByAge(days[..DoneCount(days)], DoneCount(days) - |found|, now, window)
    ensures forall st :: CountedOf(t, found, st) == CountedIn(t, days[..DoneCount(days)], now, window, st)
    ensures forall st :: NewestFirst(CountedIn(t, days[..DoneCount(days)], now, window, st))
  {
    hide *;
    var n := DoneCount(days);
    var lo := n - |found|;
    var done := days[..n];
    ChainPrefix(days, n);
    WalkedAndNot(days, lo, n, now, window);
    forall st ensures CountedOf(t, found, st) == CountedIn(t, done, now, window, st)
              ensures NewestFirst(CountedIn(t, done, now, window, st))
    {
      CountedOfNewest(t, done[lo..], now, window, st);
      TooOldCountsNothing(t, done, lo, now, window, st);
      CountedDates(t, done, now, window, st);
    }
  }

  lemma ChainPrefix(days: seq<Record>, n: nat)
    requires Chain(days) && n <= |days|
    ensures Chain(days[..n])
  {
  }

  lemma WalkedAndNot(days: seq<Record>, lo: nat, n: nat, now: int, window: int)
    requires lo <= n <= |days|
    requires KeptByAge(days[..n], lo, now, window)
    ensures days[..n][lo..] == days[lo..n]
    ensures forall i :: 0 <= i < n - lo ==> !TooOld(days[lo..n][i], now, window)
    ensures forall i :: 0 <= i < lo && days[..n][i].doneAt.Some? ==> TooOld(days[..n][i], now, window)
  {
    forall i | 0 <= i < n - lo ensures !TooOld(days[lo..n][i], now, window) {
      assert days[lo..n][i] == days[lo + i] == days[..n][lo + i];
    }
  }

  method CountDays(t: Tables, found: seq<Record>) returns (counted: map<Station, seq<Counted>>)
    ensures CountedMap(counted, t, found)
  {
    counted := map[];
    assert CountedMap(counted, t, found[..0]);
    hide *;
    for i := 0 to |found|
      invariant CountedMap(counted, t, found[..i])
    {
      counted := CountDay(t, found[i], counted, found[..i]);
      assert found[..i + 1] == found[..i] + [found[i]];
    }
    assert found[..|found|] == found;
  }

  method FindAll(counted: map<Station, seq<Counted>>, ghost done: seq<Record>, ghost now: int, ghost window: int,
                 ghost t: Tables)
    returns (findings: map<Station, Finding>)
    requires forall st :: NewestFirst(CountedIn(t, done, now, window, st))
    requires forall st :: CountedIn(t, done, now, window, st) == if st in counted then counted[st] else []
    ensures forall st :: var days := CountedIn(t, done, now, window, st);
              && (st in findings <==> HasFinding(days))
              && (st in findings ==> IsFinding(days, findings[st]))
  {
    assert !HasFinding([]);
    findings := map[];
    var todo: set<Station> := counted.Keys;
    hide *;
    while todo != {}
      invariant todo <= counted.Keys && findings.Keys <= counted.Keys - todo
      invariant forall st :: st in counted && st !in todo ==>
                  && (st in findings <==> HasFinding(counted[st]))
                  && (st in findings ==> IsFinding(counted[st], findings[st]))
    {
      var st: Station :| st in todo;
      assert CountedIn(t, done, now, window, st) == counted[st];
      var f := NothingUsable(counted[st]);
      if f.Some? { findings := findings[st := f.value]; }
      todo := todo - {st};
    }
  }
}
