/** The learned polling interval of py-weather, over exact (real) arithmetic. */
module Cadence {
  import opened Common

  const MAX_INTERVAL := 1800
  const OFFLINE_REPROBE := 86400
  const WINDOW := 6

  // ---------------------------------------------------------------- arithmetic

  /** `round`: to the nearest integer, halves to the even one. */
  function Round(x: real): int {
    var f := x.Floor;
    var d := x - f as real;
    if d < 0.5 then f else if d > 0.5 then f + 1 else if f % 2 == 0 then f else f + 1
  }

  lemma RoundNear(x: real)
    ensures x - 0.5 <= Round(x) as real <= x + 0.5
  {
  }

  /** The nearest integer, the even one of two. */
  ghost predicate IsNearest(x: real, n: int) {
    && n as real - 0.5 <= x <= n as real + 0.5
    && (x == n as real - 0.5 || x == n as real + 0.5 ==> n % 2 == 0)
  }

  lemma RoundIsNearest(x: real, n: int)
    ensures IsNearest(x, n) <==> Round(x) == n
  {
    RoundNear(x);
  }

  lemma RoundMonotone(x: real, y: real)
    requires x <= y
    ensures Round(x) <= Round(y)
  {
    RoundNear(x);
    RoundNear(y);
    assert x.Floor <= y.Floor;
  }

  function Max(a: int, b: int): int { if a < b then b else a }
  function Min(a: int, b: int): int { if b < a then b else a }

  function Clamp(value: real, low: int, high: int): int { Max(low, Min(high, Round(value))) }

  lemma ClampMonotone(x: real, y: real, low: int, high: int)
    requires x <= y
    ensures Clamp(x, low, high) <= Clamp(y, low, high)
  {
    RoundMonotone(x, y);
  }

  // ---------------------------------------------------------------- the median

  function Insert(x: real, s: seq<real>): seq<real> {
    if s == [] || x <= s[0] then [x] + s else [s[0]] + Insert(x, s[1..])
  }

  function Sort(s: seq<real>): seq<real> { if s == [] then [] else Insert(s[0], Sort(s[1..])) }

  ghost predicate Ascending(s: seq<real>) { forall i, j :: 0 <= i < j < |s| ==> s[i] <= s[j] }

  lemma {:induction false} InsertAscends(x: real, s: seq<real>)
    requires Ascending(s)
    ensures Ascending(Insert(x, s)) && |Insert(x, s)| == |s| + 1
    ensures forall y :: y in Insert(x, s) ==> y == x || y in s
    decreases |s|
  {
    if s != [] && x > s[0] {
      InsertAscends(x, s[1..]);
      var r := Insert(x, s[1..]);
      forall j | 0 <= j < |r| ensures s[0] <= r[j] {
        assert r[j] in r;
      }
    }
  }

  lemma {:induction false} SortAscends(s: seq<real>)
    ensures Ascending(Sort(s)) && |Sort(s)| == |s|
    decreases |s|
  {
    if s != [] {
      SortAscends(s[1..]);
      InsertAscends(s[0], Sort(s[1..]));
    }
  }

  /** `statistics.median`: the middle value, or the mean of the two middle ones. */
  function Median(s: seq<real>): real
    requires s != []
  {
    SortAscends(s);
    var t, n := Sort(s), |s|;
    if n % 2 == 1 then t[n / 2] else (t[n / 2 - 1] + t[n / 2]) / 2.0
  }

  lemma {:induction false} InsertPermutes(x: real, s: seq<real>)
    ensures multiset(Insert(x, s)) == multiset{x} + multiset(s)
    decreases |s|
  {
    if s != [] && x > s[0] {
      InsertPermutes(x, s[1..]);
      assert s == [s[0]] + s[1..];
    }
  }

  lemma {:induction false} SortPermutes(s: seq<real>)
    ensures multiset(Sort(s)) == multiset(s)
    decreases |s|
  {
    if s != [] {
      SortPermutes(s[1..]);
      InsertPermutes(s[0], Sort(s[1..]));
      assert s == [s[0]] + s[1..];
    }
  }

  /** The mean of the two middle values, or of the middle one and itself, of the values in order. */
  ghost predicate IsMedian(s: seq<real>, m: real) {
    exists t :: multiset(t) == multiset(s) && Ascending(t) && |t| == |s| > 0
        && m == (t[(|s| - 1) / 2] + t[|s| / 2]) / 2.0
  }

  lemma MedianIs(s: seq<real>)
    requires s != []
    ensures IsMedian(s, Median(s))
  {
    SortPermutes(s);
    SortAscends(s);
    var t := Sort(s);
    assert Median(s) == (t[(|s| - 1) / 2] + t[|s| / 2]) / 2.0;
    hide Sort, Ascending, Median;
  }

  /** How many values lie in a band. */
  function Within(s: seq<real>, lo: real, hi: real): nat {
    if s == [] then 0 else (if lo <= s[0] <= hi then 1 else 0) + Within(s[1..], lo, hi)
  }

  lemma {:induction false} WithinAppend(a: seq<real>, b: seq<real>, lo: real, hi: real)
    ensures Within(a + b, lo, hi) == Within(a, lo, hi) + Within(b, lo, hi)
    decreases |a|
  {
    if a == [] {
      assert a + b == b;
    } else {
      assert (a + b)[1..] == a[1..] + b;
      WithinAppend(a[1..], b, lo, hi);
    }
  }

  lemma {:induction false} WithinInsert(x: real, s: seq<real>, lo: real, hi: real)
    ensures Within(Insert(x, s), lo, hi) == Within(s, lo, hi) + if lo <= x <= hi then 1 else 0
    decreases |s|
  {
    if s != [] && x > s[0] {
      WithinInsert(x, s[1..], lo, hi);
      assert ([s[0]] + Insert(x, s[1..]))[1..] == Insert(x, s[1..]);
    } else {
      assert ([x] + s)[1..] == s;
    }
  }

  lemma {:induction false} WithinSort(s: seq<real>, lo: real, hi: real)
    ensures Within(Sort(s), lo, hi) == Within(s, lo, hi)
    decreases |s|
  {
    if s != [] {
      WithinSort(s[1..], lo, hi);
      WithinInsert(s[0], Sort(s[1..]), lo, hi);
    }
  }

  lemma {:induction false} WithinBounds(s: seq<real>, lo: real, hi: real)
    ensures Within(s, lo, hi) <= |s|
    ensures (forall i :: 0 <= i < |s| ==> !(lo <= s[i] <= hi)) ==> Within(s, lo, hi) == 0
    decreases |s|
  {
    if s != [] { WithinBounds(s[1..], lo, hi); }
  }

  /** If a whole end of an ascending sequence is outside the band, only the other end can be inside. */
  lemma WithinOneEnd(t: seq<real>, k: nat, lo: real, hi: real)
    requires Ascending(t) && k < |t|
    ensures t[k] > hi ==> Within(t, lo, hi) <= k
    ensures t[k] < lo ==> Within(t, lo, hi) <= |t| - k - 1
  {
    assert t == t[..k] + t[k..] == t[..k + 1] + t[k + 1..];
    WithinAppend(t[..k], t[k..], lo, hi);
    WithinAppend(t[..k + 1], t[k + 1..], lo, hi);
    WithinBounds(t[..k], lo, hi);
    WithinBounds(t[k..], lo, hi);
    WithinBounds(t[..k + 1], lo, hi);
    WithinBounds(t[k + 1..], lo, hi);
  }

  /** A strict majority of values in a band pulls the median into it. */
  lemma MajorityPullsMedian(s: seq<real>, lo: real, hi: real)
    requires 2 * Within(s, lo, hi) > |s|
    ensures s != [] && lo <= Median(s) <= hi
  {
    WithinBounds(s, lo, hi);
    var t, n := Sort(s), |s|;
    SortAscends(s);
    WithinSort(s, lo, hi);
    hide Within, Sort, Ascending;
    WithinOneEnd(t, n / 2, lo, hi);
    WithinOneEnd(t, (n - 1) / 2, lo, hi);
  }

  // ---------------------------------------------------------------- the interval

  /** Consecutive differences of the instants that parse. */
  function Gaps(parsed: seq<real>): seq<real> {
    if |parsed| < 2 then [] else [parsed[1] - parsed[0]] + Gaps(parsed[1..])
  }

  function Parsed(events: seq<string>, parse: string -> Option<real>): seq<real> {
    if events == [] then []
    else
      var rest, last := Parsed(events[..|events| - 1], parse), parse(events[|events| - 1]);
      rest + if last.Some? then [last.value] else []
  }

  /** The differences of the instants of the events that have one, in order. */
  ghost predicate AreGaps(gaps: seq<real>, at: seq<nat>, events: seq<string>, parse: string -> Option<real>) {
    && (forall i :: 0 <= i < |at| ==> at[i] < |events| && parse(events[at[i]]).Some?)
    && (forall i, j :: 0 <= i < j < |at| ==> at[i] < at[j])
    && (forall j :: 0 <= j < |events| && parse(events[j]).Some? ==> j in at)
    && |gaps| == (if at == [] then 0 else |at| - 1)
    && forall i :: 0 <= i < |gaps| ==> gaps[i] == parse(events[at[i + 1]]).value - parse(events[at[i]]).value
  }

  /** Where the parsed events are. */
  ghost predicate ArePositions(at: seq<nat>, parsed: seq<real>, events: seq<string>, parse: string -> Option<real>) {
    && |at| == |parsed|
    && (forall i :: 0 <= i < |at| ==> at[i] < |events| && parse(events[at[i]]) == Some(parsed[i]))
    && (forall i, j :: 0 <= i < j < |at| ==> at[i] < at[j])
    && (forall j :: 0 <= j < |events| && parse(events[j]).Some? ==> j in at)
  }

  lemma {:induction false} ParsedAt(events: seq<string>, parse: string -> Option<real>) returns (at: seq<nat>)
    ensures ArePositions(at, Parsed(events, parse), events, parse)
    decreases |events|
  {
    at := [];
    if events != [] {
      var last := |events| - 1;
      at := ParsedAt(events[..last], parse);
      assert events == events[..last] + [events[last]];
      var parsed := Parsed(events[..last], parse);
      if parse(events[last]).Some? {
        OnePosition(at, parsed, events[..last], events[last], parse);
        at := at + [last];
      } else {
        NoPosition(at, parsed, events[..last], events[last], parse);
        assert parsed + [] == parsed;
      }
    }
  }

  lemma OnePosition(at: seq<nat>, parsed: seq<real>, events: seq<string>, e: string, parse: string -> Option<real>)
    requires ArePositions(at, parsed, events, parse) && parse(e).Some?
    ensures ArePositions(at + [|events|], parsed + [parse(e).value], events + [e], parse)
  {
  }

  lemma NoPosition(at: seq<nat>, parsed: seq<real>, events: seq<string>, e: string, parse: string -> Option<real>)
    requires ArePositions(at, parsed, events, parse) && parse(e).None?
    ensures ArePositions(at, parsed, events + [e], parse)
  {
  }

  lemma {:induction false} GapsAt(parsed: seq<real>)
    ensures |Gaps(parsed)| == if parsed == [] then 0 else |parsed| - 1
    ensures forall i :: 0 <= i < |Gaps(parsed)| ==> Gaps(parsed)[i] == parsed[i + 1] - parsed[i]
    decreases |parsed|
  {
    if |parsed| >= 2 { GapsAt(parsed[1..]); }
  }

  lemma GapsAre(events: seq<string>, parse: string -> Option<real>)
    ensures exists at :: AreGaps(Gaps(Parsed(events, parse)), at, events, parse)
  {
    var parsed := Parsed(events, parse);
    var at := ParsedAt(events, parse);
    GapsAt(parsed);
    assert AreGaps(Gaps(parsed), at, events, parse);
  }

  function FourFifths(x: real): real { x * 0.8 }

  lemma FourFifthsMonotone(x: real, y: real)
    requires x <= y
    ensures FourFifths(x) <= FourFifths(y)
  {
  }

  /** The jitter-free interval: four fifths of the median gap, clamped; the floor on a cold start. */
  function BaseInterval(gaps: seq<real>, minInterval: int): int {
    if gaps == [] then minInterval else Clamp(FourFifths(Median(gaps)), minInterval, MAX_INTERVAL)
  }

  /** The learned interval never leaves its configured band. */
  lemma BaseIntervalBounds(gaps: seq<real>, minInterval: int)
    requires minInterval <= 1800
    ensures minInterval <= BaseInterval(gaps, minInterval) <= 1800
  {
  }

  /** Four fifths of the median gap to the nearest second, no less than the minimum and no more than half
      an hour; the minimum when there is no gap. */
  ghost predicate IsInterval(gaps: seq<real>, minInterval: int, base: int) {
    if gaps == [] then base == minInterval
    else exists m, n ::
      && IsMedian(gaps, m) && RoundsFourFifths(m, n)
      && base == if n <= minInterval then minInterval else if n >= 1800 then 1800 else n
  }

  ghost predicate RoundsFourFifths(m: real, n: int) { IsNearest(0.8 * m, n) }

  lemma BaseIntervalIs(gaps: seq<real>, minInterval: int)
    requires minInterval <= 1800
    ensures IsInterval(gaps, minInterval, BaseInterval(gaps, minInterval))
  {
    if gaps != [] {
      var m := Median(gaps);
      MedianIs(gaps);
      RoundIsNearest(0.8 * m, Round(0.8 * m));
      assert RoundsFourFifths(m, Round(0.8 * m));
      hide Median, Round, IsMedian, RoundsFourFifths;
    }
  }

  /** What a window of events teaches. */
  ghost predicate IsLearned(events: seq<string>, parse: string -> Option<real>, minInterval: int, base: int) {
    exists at, gaps :: AreGaps(gaps, at, events, parse) && IsInterval(gaps, minInterval, base)
  }

  lemma LearnedIs(events: seq<string>, parse: string -> Option<real>, minInterval: int)
    requires minInterval <= 1800
    ensures IsLearned(events, parse, minInterval, BaseInterval(Gaps(Parsed(events, parse)), minInterval))
  {
    GapsAre(events, parse);
    BaseIntervalIs(Gaps(Parsed(events, parse)), minInterval);
    hide AreGaps, IsInterval, BaseInterval, Gaps, Parsed;
  }

  /** Outlier gaps short of half do not move it past what the rest alone would give. */
  lemma BaseIntervalIsRobust(gaps: seq<real>, minInterval: int, lo: real, hi: real)
    requires 2 * Within(gaps, lo, hi) > |gaps|
    ensures Clamp(FourFifths(lo), minInterval, MAX_INTERVAL) <= BaseInterval(gaps, minInterval)
    ensures BaseInterval(gaps, minInterval) <= Clamp(FourFifths(hi), minInterval, MAX_INTERVAL)
  {
    hide FourFifths, Clamp, Median;
    MajorityPullsMedian(gaps, lo, hi);
    var m := Median(gaps);
    FourFifthsMonotone(lo, m);
    FourFifthsMonotone(m, hi);
    ClampMonotone(FourFifths(lo), FourFifths(m), minInterval, MAX_INTERVAL);
    ClampMonotone(FourFifths(m), FourFifths(hi), minInterval, MAX_INTERVAL);
  }

  /** Exactly half is not enough: two gaps in the band and two far outside can put the median outside it. */
  lemma HalfIsNotEnough()
    ensures 2 * Within([10.0, 10.0, 1000.0, 1000.0], 10.0, 10.0) == 4
    ensures Median([10.0, 10.0, 1000.0, 1000.0]) > 10.0
  {
    var d := [1000.0];
    var c := [1000.0, 1000.0];
    var b := [10.0, 1000.0, 1000.0];
    var a := [10.0, 10.0, 1000.0, 1000.0];
    assert a[1..] == b && b[1..] == c && c[1..] == d && d[1..] == [];
    assert Sort(d) == d && Sort(c) == c && Sort(b) == b && Sort(a) == a;
    assert Within(d, 10.0, 10.0) == 0 && Within(c, 10.0, 10.0) == 0 && Within(b, 10.0, 10.0) == 1;
  }

  predicate IsJitterOf(j: real, base: int) { 0.85 * base as real <= j <= 1.15 * base as real }

  /** What is scheduled stays within the rounded jitter band, and well above zero. */
  lemma ScheduledInterval(gaps: seq<real>, minInterval: int, j: real)
    requires 60 <= minInterval <= MAX_INTERVAL && IsJitterOf(j, BaseInterval(gaps, minInterval))
    ensures var base := BaseInterval(gaps, minInterval);
            Round(0.85 * base as real) <= Round(j) <= Round(1.15 * base as real)
    ensures 51 <= Round(j) <= 2070 && IsNearest(j, Round(j))
  {
    RoundIsNearest(j, Round(j));
    var base := BaseInterval(gaps, minInterval);
    RoundMonotone(0.85 * base as real, j);
    RoundMonotone(j, 1.15 * base as real);
    RoundMonotone(51.0, j);
    RoundMonotone(j, 2070.0);
  }
}
