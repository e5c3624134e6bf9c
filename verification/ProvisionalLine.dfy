/** The Overlay's provisional line: the hours drawn and the jump check's carried previous value. */
module ProvisionalLine {
  import opened Common
  import DayChain

  const HOUR := 3600 * 1000000

  /** `floor_hour`: instants are microseconds from an epoch on the hour. */
  function FloorHour(t: int): int { t - t % HOUR }

  /** One day not yet done: its bounds, its listed stations in ascending order, their hourly values and
      the time of their latest reading, and for rain the stations the day counts. */
  datatype Day = Day(start: int, end: int, stations: seq<int>, values: map<int, map<int, real>>,
                     latest: seq<Option<int>>, counted: Option<set<int>>)

  /** What `hourly_values` reads of one day. */
  datatype DayValues = DayValues(stations: seq<int>, values: map<int, map<int, real>>, latest: seq<Option<int>>)

  datatype Reading = Reading(station: int, elevation: real, hour: int, value: real)

  /** The parts this model leaves open: a day's values up to a cut, its rain-counted stations, the jump
      check, the stored rows, the elevations and the consensus. */
  datatype World = World(hourly: (DayChain.Record, Option<int>) -> DayValues, rainStations: DayChain.Record -> set<int>,
                         qcOk: (real, Option<real>) -> bool, stored: (int, int) -> Option<real>,
                         elevation: int -> Option<real>, consensus: seq<Reading> -> Option<real>)

  function ValueAt(d: Day, station: int, hour: int): Option<real> {
    if station in d.values && hour in d.values[station] then Some(d.values[station][hour]) else None
  }

  /** One drawn hour, with the day it belongs to. */
  datatype Point = Point(hour: int, day: Day)

  // ---------------------------------------------------------------- the hours drawn

  /** The cut of a day: the running hour on the day that holds `now`, none on an ended one. */
  function Through(d: Day, now: int): Option<int> {
    if d.end <= now then None else Some(FloorHour(now))
  }

  predicate Shown(hour: int, through: Option<int>) { through.Some? ==> hour < through.value }

  ghost predicate IsDayHour(d: Day, hour: int) { OnTheHour(hour) && d.start <= hour && hour + HOUR <= d.end }

  predicate OnTheHour(t: int) { t % HOUR == 0 }

  lemma FloorFacts(t: int)
    ensures OnTheHour(FloorHour(t)) && OnTheHour(FloorHour(t) + HOUR) && FloorHour(t) <= t < FloorHour(t) + HOUR
  {
  }

  lemma HourAfter(t: int)
    requires OnTheHour(t)
    ensures OnTheHour(t + HOUR)
  {
  }

  lemma NextHour(hour: int, h: int)
    requires OnTheHour(hour) && OnTheHour(h) && hour <= h < hour + HOUR
    ensures h == hour
  {
  }

  lemma NoHourBefore(start: int, first: int)
    requires first == FloorHour(start) || first == FloorHour(start) + HOUR
    ensures forall h :: OnTheHour(h) && start <= h < first ==> h == FloorHour(start)
  {
  }

  /** A whole hour inside the day that is over by `now`, or any one once the day is. */
  ghost predicate DrawsHour(d: Day, now: int, h: int) {
    && h % 3_600_000_000 == 0 && d.start <= h && h + 3_600_000_000 <= d.end
    && (d.end <= now || h + 3_600_000_000 <= now)
  }

  lemma ShownMeans(d: Day, now: int, h: int)
    ensures DrawsHour(d, now, h) <==> IsDayHour(d, h) && Shown(h, Through(d, now))
  {
    FloorFacts(now);
    if OnTheHour(h) && h < FloorHour(now) && h + HOUR > FloorHour(now) {
      NextHour(h, FloorHour(now));
    }
  }

  /** Exactly the whole hours of the day that are over, or all of them once the day is, in order. */
  method DrawDay(d: Day, now: int) returns (points: seq<Point>)
    ensures forall i :: 0 <= i < |points| ==> points[i].day == d && DrawsHour(d, now, points[i].hour)
    ensures forall h :: DrawsHour(d, now, h) ==> Point(h, d) in points
    ensures forall i, j :: 0 <= i < j < |points| ==> points[i].hour < points[j].hour
  {
    hide OnTheHour, FloorHour, DrawsHour;
    forall h ensures DrawsHour(d, now, h) <==> IsDayHour(d, h) && Shown(h, Through(d, now)) { ShownMeans(d, now, h); }
    FloorFacts(d.start);
    var hour := FloorHour(d.start);
    if hour < d.start { hour := hour + HOUR; }
    HourAfter(hour);
    NoHourBefore(d.start, hour);
    points := [];
    var through := Through(d, now);
    while hour + HOUR <= d.end && Shown(hour, through)
      invariant OnTheHour(hour) && OnTheHour(hour + HOUR) && d.start <= hour
      invariant forall i :: 0 <= i < |points| ==>
                  points[i].day == d && IsDayHour(d, points[i].hour) && Shown(points[i].hour, through)
                      && points[i].hour < hour
      invariant forall i, j :: 0 <= i < j < |points| ==> points[i].hour < points[j].hour
      invariant forall h :: IsDayHour(d, h) && h < hour ==> Point(h, d) in points
      decreases d.end - hour
    {
      forall h | OnTheHour(h) && hour <= h < hour + HOUR ensures h == hour { NextHour(hour, h); }
      points := points + [Point(hour, d)];
      hour := hour + HOUR;
      HourAfter(hour);
    }
  }

  // ---------------------------------------------------------------- the carried previous value

  /** The station's value at the greatest drawn hour before point i that has one. */
  ghost function LastDrawn(points: seq<Point>, station: int, i: nat): Option<real>
    requires i <= |points|
  {
    if i == 0 then None
    else
      var v := ValueAt(points[i - 1].day, station, points[i - 1].hour);
      if v.Some? then v else LastDrawn(points, station, i - 1)
  }

  ghost predicate HasValue(d: Day, station: int, hour: int) { station in d.values && hour in d.values[station] }

  lemma {:induction false} LastDrawnIs(points: seq<Point>, station: int, i: nat)
    requires i <= |points|
    ensures LastDrawn(points, station, i).None? <==>
              forall j :: 0 <= j < i ==> !HasValue(points[j].day, station, points[j].hour)
    ensures LastDrawn(points, station, i).Some? ==>
              exists j :: 0 <= j < i && HasValue(points[j].day, station, points[j].hour)
                && LastDrawn(points, station, i).value == points[j].day.values[station][points[j].hour]
                && forall k :: j < k < i ==> !HasValue(points[k].day, station, points[k].hour)
    decreases i
  {
    if i > 0 {
      LastDrawnIs(points, station, i - 1);
      var v := ValueAt(points[i - 1].day, station, points[i - 1].hour);
    }
  }

  /** What the jump check compares a value with: the last drawn value, whatever its flag, else the
      latest stored one before the hour. */
  ghost function Previous(w: World, points: seq<Point>, station: int, i: nat): Option<real>
    requires i < |points|
  {
    var drawn := LastDrawn(points, station, i);
    if drawn.Some? then drawn else w.stored(station, points[i].hour)
  }

  ghost predicate Passes(w: World, points: seq<Point>, station: int, i: nat)
    requires i < |points|
  {
    var v := ValueAt(points[i].day, station, points[i].hour);
    && v.Some? && w.qcOk(v.value, Previous(w, points, station, i)) && w.elevation(station).Some?
    && (points[i].day.counted.Some? ==> station in points[i].day.counted.value)
  }

  /** The readings an hour passes on: of the first n listed stations, those that pass. */
  ghost function OkSpec(w: World, points: seq<Point>, i: nat, n: nat): seq<Reading>
    requires i < |points| && n <= |points[i].day.stations|
  {
    if n == 0 then []
    else
      var station := points[i].day.stations[n - 1];
      OkSpec(w, points, i, n - 1) +
      if Passes(w, points, station, i)
      then [Reading(station, w.elevation(station).value, points[i].hour,
                    ValueAt(points[i].day, station, points[i].hour).value)]
      else []
  }

  /** A station's reading of an hour: its recorded value, when that passes the jump check against the
      previous one, the station has an elevation, and a rain day counts it. */
  ghost predicate IsReading(w: World, points: seq<Point>, i: nat, station: int, x: Reading)
    requires i < |points|
  {
    var d, hour := points[i].day, points[i].hour;
    && HasValue(d, station, hour) && w.elevation(station).Some?
    && w.qcOk(d.values[station][hour], Previous(w, points, station, i))
    && (d.counted.None? || station in d.counted.value)
    && x == Reading(station, w.elevation(station).value, hour, d.values[station][hour])
  }

  /** The readings of the first n listed stations: of each that has one, in the listed order. */
  ghost predicate ReadingsOf(w: World, points: seq<Point>, i: nat, n: nat, r: seq<Reading>)
    requires i < |points| && n <= |points[i].day.stations|
  {
    var listed := points[i].day.stations;
    && (forall k, x :: 0 <= k < n && IsReading(w, points, i, listed[k], x) ==> x in r)
    && (forall a :: 0 <= a < |r| ==> exists k :: 0 <= k < n && IsReading(w, points, i, listed[k], r[a]))
    && (forall a, b :: 0 <= a < b < |r| ==> Precedes(listed[..n], r[a].station, r[b].station))
  }

  ghost predicate Precedes(listed: seq<int>, s: int, t: int) {
    exists j, k :: 0 <= j < k < |listed| && listed[j] == s && listed[k] == t
  }

  lemma {:induction false} OkSpecAre(w: World, points: seq<Point>, i: nat, n: nat)
    requires i < |points| && n <= |points[i].day.stations|
    ensures ReadingsOf(w, points, i, n, OkSpec(w, points, i, n))
    decreases n
  {
    if n > 0 {
      var station, rest := points[i].day.stations[n - 1], OkSpec(w, points, i, n - 1);
      OkSpecAre(w, points, i, n - 1);
      PassesMeans(w, points, station, i);
      if Passes(w, points, station, i) {
        var x :| IsReading(w, points, i, station, x);
        OneMoreReading(w, points, i, n, rest, x);
      } else {
        NoMoreReading(w, points, i, n, station, rest);
        assert rest + [] == rest;
      }
    }
  }

  lemma ReadsStation(w: World, points: seq<Point>, i: nat, station: int, x: Reading)
    requires i < |points| && IsReading(w, points, i, station, x)
    ensures x.station == station
  {
  }

  lemma OneMoreReading(w: World, points: seq<Point>, i: nat, n: nat, rest: seq<Reading>, x: Reading)
    requires i < |points| && 0 < n <= |points[i].day.stations| && ReadingsOf(w, points, i, n - 1, rest)
    requires IsReading(w, points, i, points[i].day.stations[n - 1], x)
    ensures ReadingsOf(w, points, i, n, rest + [x])
  {
    var r, listed := rest + [x], points[i].day.stations;
    var station := listed[n - 1];
    assert forall y :: IsReading(w, points, i, station, y) ==> y == x;
    forall a, b | 0 <= a < b < |r| ensures Precedes(listed[..n], r[a].station, r[b].station) {
      assert r[a] == rest[a];
      if b < |rest| {
        assert r[b] == rest[b];
        PrecedesGrows(listed, n, r[a].station, r[b].station);
      } else {
        var j :| 0 <= j < n - 1 && IsReading(w, points, i, listed[j], rest[a]);
        ReadsStation(w, points, i, listed[j], rest[a]);
        ReadsStation(w, points, i, listed[n - 1], x);
        assert listed[..n][j] == r[a].station && listed[..n][n - 1] == r[b].station;
      }
    }
    hide IsReading, Precedes;
    assert r[|rest|] == x;
    forall a | 0 <= a < |r| ensures exists k :: 0 <= k < n && IsReading(w, points, i, listed[k], r[a]) {
      if a < |rest| {
        assert r[a] == rest[a];
        var k :| 0 <= k < n - 1 && IsReading(w, points, i, listed[k], rest[a]);
      }
    }
    forall k, y | 0 <= k < n && IsReading(w, points, i, listed[k], y) ensures y in r {
      if k < n - 1 { assert y in rest; }
    }
  }

  lemma PrecedesGrows(listed: seq<int>, n: nat, s: int, t: int)
    requires 0 < n <= |listed| && Precedes(listed[..n - 1], s, t)
    ensures Precedes(listed[..n], s, t)
  {
    var j, k :| 0 <= j < k < n - 1 && listed[..n - 1][j] == s && listed[..n - 1][k] == t;
    assert listed[..n][j] == s && listed[..n][k] == t;
  }

  lemma NoMoreReading(w: World, points: seq<Point>, i: nat, n: nat, station: int, rest: seq<Reading>)
    requires i < |points| && 0 < n <= |points[i].day.stations| && ReadingsOf(w, points, i, n - 1, rest)
    requires station == points[i].day.stations[n - 1] && forall x :: !IsReading(w, points, i, station, x)
    ensures ReadingsOf(w, points, i, n, rest)
  {
    hide IsReading, Precedes;
    var listed := points[i].day.stations;
    forall a, b | 0 <= a < b < |rest| ensures Precedes(listed[..n], rest[a].station, rest[b].station) {
      PrecedesGrows(listed, n, rest[a].station, rest[b].station);
    }
    forall k, y | 0 <= k < n && IsReading(w, points, i, listed[k], y) ensures y in rest {
      if k < n - 1 { assert y in rest; }
    }
    forall a | 0 <= a < |rest| ensures exists k :: 0 <= k < n && IsReading(w, points, i, listed[k], rest[a]) {
      var k :| 0 <= k < n - 1 && IsReading(w, points, i, listed[k], rest[a]);
    }
  }

  lemma PassesMeans(w: World, points: seq<Point>, station: int, i: nat)
    requires i < |points|
    ensures Passes(w, points, station, i) <==> exists x :: IsReading(w, points, i, station, x)
    ensures forall x :: IsReading(w, points, i, station, x) ==>
              x == Reading(station, w.elevation(station).value, points[i].hour,
                           ValueAt(points[i].day, station, points[i].hour).value)
  {
    hide Previous;
    var d, hour := points[i].day, points[i].hour;
    if Passes(w, points, station, i) {
      var x := Reading(station, w.elevation(station).value, hour, d.values[station][hour]);
      assert IsReading(w, points, i, station, x);
    }
  }

  predicate Distinct(s: seq<int>) { forall i, j :: 0 <= i < |s| && 0 <= j < |s| && s[i] == s[j] ==> i == j }

  /** The carried dict before point i: the last drawn value of every station that has had one. */
  ghost predicate Carries(previous: map<int, Option<real>>, points: seq<Point>, station: int, i: nat)
    requires i <= |points|
  {
    var last := LastDrawn(points, station, i);
    (station in previous <==> last.Some?) && (last.Some? ==> previous[station] == last)
  }

  ghost predicate CarriesAll(previous: map<int, Option<real>>, points: seq<Point>, i: nat)
    requires i <= |points|
  {
    forall st :: Carries(previous, points, st, i)
  }

  /** One hour: check each value against the carried one, then carry it on, passed or not. */
  method OkReadings(w: World, ghost points: seq<Point>, ghost i: nat, p: Point, before: map<int, Option<real>>,
                    cache: map<int, Option<real>>)
    returns (readings: seq<Reading>, previous: map<int, Option<real>>, elevations: map<int, Option<real>>)
    requires i < |points| && p == points[i] && Distinct(p.day.stations)
    requires forall st :: st in p.day.values ==> st in p.day.stations
    requires CarriesAll(before, points, i)
    requires forall st :: st in cache ==> cache[st] == w.elevation(st)
    ensures readings == OkSpec(w, points, i, |p.day.stations|)
    ensures CarriesAll(previous, points, i + 1)
    ensures forall st :: st in elevations ==> elevations[st] == w.elevation(st)
  {
    readings, previous, elevations := [], before, cache;
    for n := 0 to |p.day.stations|
      invariant readings == OkSpec(w, points, i, n)
      invariant forall k :: 0 <= k < n ==> Carries(previous, points, p.day.stations[k], i + 1)
      invariant forall st :: st !in p.day.stations[..n] ==> Carries(previous, points, st, i)
      invariant forall st :: st in elevations ==> elevations[st] == w.elevation(st)
    {
      var station := p.day.stations[n];
      assert p.day.stations[..n + 1] == p.day.stations[..n] + [station];
      assert station !in p.day.stations[..n];
      assert Carries(previous, points, station, i);
      var v := ValueAt(p.day, station, p.hour);
      if v.Some? {
        ghost var was := previous;
        if station !in previous { previous := previous[station := w.stored(station, p.hour)]; }
        assert previous[station] == Previous(w, points, station, i);
        var ok := w.qcOk(v.value, previous[station]);
        previous := previous[station := v];
        if station !in elevations { elevations := elevations[station := w.elevation(station)]; }
        var elevation := elevations[station];
        if ok && elevation.Some? && (p.day.counted.Some? ==> station in p.day.counted.value) {
          readings := readings + [Reading(station, elevation.value, p.hour, v.value)];
        }
        forall st | st != station ensures (st in previous <==> st in was) && (st in was ==> previous[st] == was[st]) {}
        forall k | 0 <= k < n ensures Carries(previous, points, p.day.stations[k], i + 1) {
          assert p.day.stations[k] in p.day.stations[..n];
        }
      }
    }
    assert p.day.stations[..|p.day.stations|] == p.day.stations;
    ghost var next := i + 1;
    forall st ensures Carries(previous, points, st, next) {
      if st in p.day.stations {
        var k :| 0 <= k < |p.day.stations| && p.day.stations[k] == st;
      } else {
        assert ValueAt(p.day, st, p.hour).None?;
      }
    }
  }

  // ---------------------------------------------------------------- the line

  /** Its stations are distinct and own its values. */
  predicate IsListed(d: Day) { Distinct(d.stations) && forall st :: st in d.values ==> st in d.stations }

  ghost predicate DaysOk(days: seq<Day>) {
    && (forall i :: 0 <= i < |days| ==> IsListed(days[i]))
    && (forall i, j :: 0 <= i < j < |days| ==> days[i].end <= days[j].start)
  }

  /** The points drawn from the first n days. */
  ghost predicate Drawn(points: seq<Point>, days: seq<Day>, n: nat, now: int)
    requires n <= |days|
  {
    && (forall i :: 0 <= i < |points| ==> points[i].day in days[..n] && DrawsHour(points[i].day, now, points[i].hour))
    && (forall i, j :: 0 <= i < j < |points| ==> points[i].hour < points[j].hour)
    && (forall d, h :: d in days[..n] ==> (Point(h, d) in points <==> DrawsHour(d, now, h)))
  }

  lemma DrawnExtends(points: seq<Point>, more: seq<Point>, days: seq<Day>, n: nat, now: int)
    requires DaysOk(days) && n < |days| && Drawn(points, days, n, now)
    requires forall i :: 0 <= i < |more| ==> more[i].day == days[n] && DrawsHour(days[n], now, more[i].hour)
    requires forall h :: DrawsHour(days[n], now, h) ==> Point(h, days[n]) in more
    requires forall i, j :: 0 <= i < j < |more| ==> more[i].hour < more[j].hour
    ensures Drawn(points + more, days, n + 1, now)
  {
    var all := points + more;
    assert days[..n + 1] == days[..n] + [days[n]];
    forall i, j | 0 <= i < |points| && 0 <= j < |more| ensures points[i].hour < more[j].hour {
      var m :| 0 <= m < n && days[m] == points[i].day;
    }
    forall d, h | d in days[..n + 1] ensures Point(h, d) in all <==> DrawsHour(d, now, h) {
      if d == days[n] {
        if DrawsHour(d, now, h) {
          assert Point(h, d) in more;
        } else if d in days[..n] {
          assert Point(h, d) !in points;
        }
      }
    }
  }

  /** What the line says of its first n points. */
  ghost predicate LineUpTo(w: World, points: seq<Point>, n: nat, drawn: seq<int>, values: map<int, real>)
    requires n <= |points|
  {
    && |drawn| == n && (forall i :: 0 <= i < n ==> drawn[i] == points[i].hour)
    && (forall h :: h in values ==> h in drawn)
    && (forall i :: 0 <= i < n ==>
          var result := w.consensus(OkSpec(w, points, i, |points[i].day.stations|));
          if result.Some? then points[i].hour in values && values[points[i].hour] == result.value
          else points[i].hour !in values)
  }

  method Line(w: World, points: seq<Point>) returns (drawn: seq<int>, values: map<int, real>)
    requires forall i, j :: 0 <= i < j < |points| ==> points[i].hour < points[j].hour
    requires forall i :: 0 <= i < |points| ==> IsListed(points[i].day)
    ensures LineUpTo(w, points, |points|, drawn, values)
  {
    drawn, values := [], map[];
    var previous: map<int, Option<real>>, elevations: map<int, Option<real>> := map[], map[];
    for i := 0 to |points|
      invariant LineUpTo(w, points, i, drawn, values)
      invariant CarriesAll(previous, points, i)
      invariant forall st :: st in elevations ==> elevations[st] == w.elevation(st)
    {
      var readings;
      readings, previous, elevations := OkReadings(w, points, i, points[i], previous, elevations);
      var hour := points[i].hour;
      assert hour !in drawn;
      drawn := drawn + [hour];
      var result := w.consensus(readings);
      if result.Some? { values := values[hour := result.value]; }
    }
  }

  // ---------------------------------------------------------------- from the day records

  predicate AreListed(v: DayValues) { Distinct(v.stations) && forall st :: st in v.values ==> st in v.stations }

  /** A day's listed stations are distinct and own its values. */
  ghost predicate WorldOk(w: World) {
    forall r, t :: AreListed(w.hourly(r, t))
  }

  /** A span as it is drawn: cut at the running hour when it holds `now`. */
  function DayOf(w: World, rain: bool, r: DayChain.Record, now: int): Day {
    var v := w.hourly(r, if r.end <= now then None else Some(FloorHour(now)));
    Day(r.start, r.end, v.stations, v.values, v.latest, if rain then Some(w.rainStations(r)) else None)
  }

  function DaysOf(w: World, rain: bool, spans: seq<DayChain.Record>, now: int): seq<Day> {
    seq(|spans|, i requires 0 <= i < |spans| => DayOf(w, rain, spans[i], now))
  }

  /** The days the line covers: the started, not-done ones, unless the records have run out. */
  function LineSpans(days: seq<DayChain.Record>, now: int): seq<DayChain.Record> {
    if DayChain.OutOfRecords(days, now) then [] else DayChain.Undone(DayChain.Started(days, now))
  }

  /** Each ends before the next starts, and all from an instant on. */
  ghost predicate InOrderFrom(spans: seq<DayChain.Record>, start: int) {
    && (forall i, j :: 0 <= i < j < |spans| ==> spans[i].end <= spans[j].start)
    && (forall i :: 0 <= i < |spans| ==> start <= spans[i].start)
  }

  lemma InOrderCons(r: DayChain.Record, rest: seq<DayChain.Record>)
    requires r.start < r.end && InOrderFrom(rest, r.end)
    ensures InOrderFrom([r] + rest, r.start) && InOrderFrom(rest, r.start)
  {
  }

  lemma {:induction false} SpansInOrder(days: seq<DayChain.Record>, now: int)
    requires DayChain.Chain(days)
    ensures InOrderFrom(DayChain.Undone(DayChain.Started(days, now)), if days == [] then 0 else days[0].start)
    decreases |days|
  {
    if days != [] {
      DayChain.ChainTail(days);
      SpansInOrder(days[1..], now);
      assert |days| > 1 ==> days[1].start == days[0].end by {
        assert |days| > 1 ==> days[0 + 1].start == days[0].end;
      }
      assert days[0].start < days[0].end;
      StartedCons(days, now);
      var rest := DayChain.Undone(DayChain.Started(days[1..], now));
      assert |days| == 1 ==> rest == [] by { NoSpans(days[1..], now); }
      hide *;
      assert InOrderFrom(rest, days[0].end) by { NoneInOrder(rest, days[0].end); }
      InOrderCons(days[0], rest);
    }
  }

  lemma NoSpans(days: seq<DayChain.Record>, now: int)
    ensures days == [] ==> DayChain.Undone(DayChain.Started(days, now)) == []
  {
  }

  lemma NoneInOrder(spans: seq<DayChain.Record>, start: int)
    ensures spans == [] ==> InOrderFrom(spans, start)
  {
  }

  lemma StartedCons(days: seq<DayChain.Record>, now: int)
    requires days != []
    ensures var rest := DayChain.Undone(DayChain.Started(days[1..], now));
            DayChain.Undone(DayChain.Started(days, now)) ==
              if days[0].start < now && !days[0].done then [days[0]] + rest else rest
  {
    var started := DayChain.Started(days[1..], now);
    assert [] + started == started && ([days[0]] + started)[1..] == started;
    assert [] + DayChain.Undone(started) == DayChain.Undone(started);
  }

  lemma DayIsListed(w: World, rain: bool, r: DayChain.Record, now: int)
    requires WorldOk(w)
    ensures IsListed(DayOf(w, rain, r, now))
  {
    assert AreListed(w.hourly(r, if r.end <= now then None else Some(FloorHour(now))));
  }

  lemma LineDaysOk(w: World, rain: bool, days: seq<DayChain.Record>, now: int)
    requires WorldOk(w) && DayChain.Chain(days)
    ensures DaysOk(DaysOf(w, rain, LineSpans(days, now), now))
  {
    SpansInOrder(days, now);
    var spans := LineSpans(days, now);
    var line := DaysOf(w, rain, spans, now);
    hide WorldOk, IsListed;
    forall i | 0 <= i < |line| ensures IsListed(line[i]) { DayIsListed(w, rain, spans[i], now); }
  }

  /** The latest reading of any day drawn. */
  ghost predicate IsLatest(days: seq<Day>, latest: Option<int>) {
    && (latest.Some? ==> exists d :: d in days && latest in d.latest)
    && (forall d, o :: d in days && o in d.latest && o.Some? ==> latest.Some? && o.value <= latest.value)
  }

  /** max(stamps, default=None) over one more day. */
  method LatestOf(stamps: seq<Option<int>>, before: Option<int>) returns (latest: Option<int>)
    ensures latest == before || latest in stamps
    ensures before.Some? ==> latest.Some? && before.value <= latest.value
    ensures forall o :: o in stamps && o.Some? ==> latest.Some? && o.value <= latest.value
  {
    latest := before;
    for i := 0 to |stamps|
      invariant latest == before || latest in stamps
      invariant before.Some? ==> latest.Some? && before.value <= latest.value
      invariant forall o :: o in stamps[..i] && o.Some? ==> latest.Some? && o.value <= latest.value
    {
      assert stamps[..i + 1] == stamps[..i] + [stamps[i]];
      if stamps[i].Some? && (latest.None? || latest.value < stamps[i].value) { latest := stamps[i]; }
    }
    assert stamps[..|stamps|] == stamps;
  }

  // ---------------------------------------------------------------- in records and hours

  /** The line has the hour h: a whole hour inside a started day not yet done, over by `now`, or any one
      of such a day that has ended.  None when nothing is done and the last record has ended. */
  ghost predicate HasHour(days: seq<DayChain.Record>, now: int, h: int) {
    && !(days != [] && !days[0].done && days[|days| - 1].end <= now)
    && h % 3_600_000_000 == 0
    && exists r :: r in days && r.start < now && !r.done && r.start <= h && h + 3_600_000_000 <= r.end
                   && (r.end <= now || h + 3_600_000_000 <= now)
  }

  /** A day as it is drawn from a record: with the values read up to the running hour while it holds
      `now`, all of them once it has ended. */
  ghost predicate ReadFrom(d: Day, w: World, rain: bool, r: DayChain.Record, now: int) {
    && d.start == r.start && d.end == r.end && d.counted == (if rain then Some(w.rainStations(r)) else None)
    && exists cut: Option<int> ::
         && DayValues(d.stations, d.values, d.latest) == w.hourly(r, cut)
         && (r.end <= now ==> cut.None?)
         && (r.end > now ==>
               cut.Some? && cut.value % 3_600_000_000 == 0 && cut.value <= now < cut.value + 3_600_000_000)
  }

  /** It is drawn from a started day not yet done. */
  ghost predicate ReadsOne(d: Day, w: World, rain: bool, days: seq<DayChain.Record>, now: int) {
    exists r :: r in days && r.start < now && !r.done && ReadFrom(d, w, rain, r, now)
  }

  lemma DayOfMeans(w: World, rain: bool, r: DayChain.Record, now: int)
    ensures ReadFrom(DayOf(w, rain, r, now), w, rain, r, now)
  {
    FloorFacts(now);
    var cut := if r.end <= now then None else Some(FloorHour(now));
    var d := DayOf(w, rain, r, now);
    assert DayValues(d.stations, d.values, d.latest) == w.hourly(r, cut);
  }

  lemma {:induction false} SpansAre(days: seq<DayChain.Record>, now: int)
    ensures forall r :: r in DayChain.Undone(DayChain.Started(days, now)) <==> r in days && r.start < now && !r.done
    decreases |days|
  {
    if days != [] {
      SpansAre(days[1..], now);
      StartedCons(days, now);
      assert days == [days[0]] + days[1..];
    }
  }

  /** The hours drawn, and what each point reads. */
  lemma DrawnMeans(w: World, rain: bool, days: seq<DayChain.Record>, now: int, points: seq<Point>)
    requires var line := DaysOf(w, rain, LineSpans(days, now), now); Drawn(points, line, |line|, now)
    ensures forall h :: HasHour(days, now, h) <==> exists i :: 0 <= i < |points| && points[i].hour == h
    ensures forall i :: 0 <= i < |points| ==> ReadsOne(points[i].day, w, rain, days, now)
  {
    var spans := LineSpans(days, now);
    var line := DaysOf(w, rain, spans, now);
    SpansAre(days, now);
    assert line[..|line|] == line;
    hide ReadFrom, DayOf;
    forall i | 0 <= i < |points|
      ensures HasHour(days, now, points[i].hour)
      ensures ReadsOne(points[i].day, w, rain, days, now)
    {
      var k :| 0 <= k < |line| && line[k] == points[i].day;
      DayOfMeans(w, rain, spans[k], now);
      DayBounds(w, rain, spans[k], now);
      assert spans[k] in spans;
    }
    forall h | HasHour(days, now, h) ensures exists i :: 0 <= i < |points| && points[i].hour == h {
      var r :| r in days && r.start < now && !r.done && r.start <= h && h + 3_600_000_000 <= r.end
               && (r.end <= now || h + 3_600_000_000 <= now);
      var k :| 0 <= k < |spans| && spans[k] == r;
      DayBounds(w, rain, r, now);
      assert line[k] in line && Point(h, line[k]) in points;
    }
  }

  lemma DayBounds(w: World, rain: bool, r: DayChain.Record, now: int)
    ensures DayOf(w, rain, r, now).start == r.start && DayOf(w, rain, r, now).end == r.end
  {
  }

  /** The provisional line, from the day records on: every drawn hour of the days that have started and
      are not done, in order, for each the consensus of the values that pass against their declarative
      previous values, and the latest reading. */
  method SiteHours(w: World, rain: bool, days: seq<DayChain.Record>, now: int)
    returns (drawn: seq<int>, values: map<int, real>, latest: Option<int>, ghost points: seq<Point>)
    requires WorldOk(w) && DayChain.Chain(days) && DayChain.LocalDates(days)
    ensures var line := DaysOf(w, rain, LineSpans(days, now), now);
            && Drawn(points, line, |line|, now) && LineUpTo(w, points, |points|, drawn, values)
            && IsLatest(line, latest)
    ensures forall i, j :: 0 <= i < j < |drawn| ==> drawn[i] < drawn[j]
    ensures forall h :: h in drawn <==> HasHour(days, now, h)
    ensures forall i :: 0 <= i < |points| ==> ReadsOne(points[i].day, w, rain, days, now)
  {
    hide HasHour, ReadsOne;
    var spans := DayChain.UndoneSpans(days, now);
    LineDaysOk(w, rain, days, now);
    var work: seq<Point> := [];
    ghost var line := DaysOf(w, rain, spans, now);
    latest := None;
    for n := 0 to |spans|
      invariant Drawn(work, line, n, now) && IsLatest(line[..n], latest)
    {
      var d := DayOf(w, rain, spans[n], now);
      var day := DrawDay(d, now);
      work, latest := DrawMore(work, day, line, n, now, d, latest);
    }
    points := work;
    assert line[..|line|] == line;
    forall i | 0 <= i < |points| ensures points[i].day in line {
      assert points[i].day in line[..|line|];
    }
    DrawnMeans(w, rain, days, now, points);
    drawn, values := Line(w, work);
    HoursAre(w, points, drawn, values, days, now);
  }

  lemma HoursAre(w: World, points: seq<Point>, drawn: seq<int>, values: map<int, real>,
                 days: seq<DayChain.Record>, now: int)
    requires LineUpTo(w, points, |points|, drawn, values)
    requires forall h :: HasHour(days, now, h) <==> exists i :: 0 <= i < |points| && points[i].hour == h
    ensures forall h :: h in drawn <==> HasHour(days, now, h)
  {
    hide HasHour;
    forall h ensures h in drawn <==> HasHour(days, now, h) {
      if h in drawn { var i :| 0 <= i < |drawn| && drawn[i] == h; }
      if HasHour(days, now, h) {
        var i :| 0 <= i < |points| && points[i].hour == h;
        assert drawn[i] == h;
      }
    }
  }

  method DrawMore(points: seq<Point>, more: seq<Point>, ghost days: seq<Day>, ghost n: nat, ghost now: int,
                  d: Day, before: Option<int>)
    returns (all: seq<Point>, latest: Option<int>)
    requires DaysOk(days) && n < |days| && d == days[n] && Drawn(points, days, n, now) && IsLatest(days[..n], before)
    requires forall i :: 0 <= i < |more| ==> more[i].day == d && DrawsHour(d, now, more[i].hour)
    requires forall h :: DrawsHour(d, now, h) ==> Point(h, d) in more
    requires forall i, j :: 0 <= i < j < |more| ==> more[i].hour < more[j].hour
    ensures all == points + more && Drawn(all, days, n + 1, now) && IsLatest(days[..n + 1], latest)
  {
    DrawnExtends(points, more, days, n, now);
    all := points + more;
    latest := LatestOf(d.latest, before);
    hide Drawn, DaysOk;
    assert days[..n + 1] == days[..n] + [d];
    assert latest == before || (d in days[..n + 1] && latest in d.latest);
  }
}
