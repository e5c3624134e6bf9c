/** The close monitor's provider alert: judged collection slots read newest first, day by day on
    demand, and the verdict drawn from as few of them as it needs. */
module SlotWalk {
  import opened Common

  /** `time` is the slot's earliest try; `answeredAt` its earliest answered one, None when down. */
  datatype Slot = Slot(time: int, answeredAt: Option<int>)

  // ---------------------------------------------------------------- judging one day's tries

  datatype SlotKind = Daytime | GapFill | Evening(name: string)
  datatype Try = Try(kind: SlotKind, triedAt: int, closeAttempt: Option<int>, answered: bool, outage: bool)
  datatype GroupKey = GroupKey(kind: SlotKind, number: int)

  /** A daytime slot is one refresh interval from the day's start, a gap-fill slot one close attempt. */
  function KeyOf(t: Try, dayStart: int, step: int): GroupKey
    requires step > 0
  {
    match t.kind
    case Daytime => GroupKey(Daytime, (t.triedAt - dayStart) / step)
    case GapFill => GroupKey(GapFill, if t.closeAttempt.Some? then t.closeAttempt.value else 0)
    case Evening(_) => GroupKey(t.kind, 0)
  }

  function OfKey(tries: seq<Try>, k: GroupKey, dayStart: int, step: int): seq<Try>
    requires step > 0
  {
    if tries == [] then []
    else
      var rest := OfKey(tries[..|tries| - 1], k, dayStart, step);
      var t := tries[|tries| - 1];
      if KeyOf(t, dayStart, step) == k then rest + [t] else rest
  }

  /** The groups' keys, each where it is first seen. */
  function KeysOf(tries: seq<Try>, dayStart: int, step: int): seq<GroupKey>
    requires step > 0
  {
    if tries == [] then []
    else
      var rest := KeysOf(tries[..|tries| - 1], dayStart, step);
      var k := KeyOf(tries[|tries| - 1], dayStart, step);
      if k in rest then rest else rest + [k]
  }

  predicate Judged(group: seq<Try>) {
    exists i :: 0 <= i < |group| && (group[i].answered || group[i].outage)
  }

  ghost predicate IsSlotOf(s: Slot, group: seq<Try>) {
    && (exists i :: 0 <= i < |group| && group[i].triedAt == s.time)
    && (forall i :: 0 <= i < |group| ==> s.time <= group[i].triedAt)
    && (s.answeredAt.None? <==> forall i :: 0 <= i < |group| ==> !group[i].answered)
    && (s.answeredAt.Some? ==>
          && (exists i :: 0 <= i < |group| && group[i].answered && group[i].triedAt == s.answeredAt.value)
          && (forall i :: 0 <= i < |group| && group[i].answered ==> s.answeredAt.value <= group[i].triedAt))
  }

  function Earlier(a: int, b: int): int { if b < a then b else a }

  /** The earliest try of a non-empty group. */
  function FirstTry(group: seq<Try>): int {
    if group == [] then 0
    else if |group| == 1 then group[0].triedAt
    else Earlier(FirstTry(group[..|group| - 1]), group[|group| - 1].triedAt)
  }

  /** Its earliest answered try, if any. */
  function FirstAnswer(group: seq<Try>): Option<int> {
    if group == [] then None
    else
      var rest, last := FirstAnswer(group[..|group| - 1]), group[|group| - 1];
      if !last.answered then rest
      else Some(if rest.None? then last.triedAt else Earlier(rest.value, last.triedAt))
  }

  function SlotFrom(group: seq<Try>): Slot { Slot(FirstTry(group), FirstAnswer(group)) }

  lemma {:induction false} FirstTryIs(group: seq<Try>)
    requires group != []
    ensures exists i :: 0 <= i < |group| && group[i].triedAt == FirstTry(group)
    ensures forall i :: 0 <= i < |group| ==> FirstTry(group) <= group[i].triedAt
    decreases |group|
  {
    var last := |group| - 1;
    if last == 0 {
      assert group[0].triedAt == FirstTry(group);
    } else {
      var rest := group[..last];
      FirstTryIs(rest);
      var i :| 0 <= i < |rest| && rest[i].triedAt == FirstTry(rest);
      var first := FirstTry(group);
      assert first == Earlier(FirstTry(rest), group[last].triedAt);
      hide FirstTry;
      assert group[i] == rest[i];
      assert group[i].triedAt == first || group[last].triedAt == first;
      forall k | 0 <= k < |group| ensures first <= group[k].triedAt {
        if k < last { assert group[k] == rest[k]; }
      }
    }
  }

  lemma {:induction false} FirstAnswerIs(group: seq<Try>)
    ensures var first := FirstAnswer(group);
            && (first.None? ==> forall i :: 0 <= i < |group| ==> !group[i].answered)
            && (first.Some? ==>
                  && (exists i :: 0 <= i < |group| && group[i].answered && group[i].triedAt == first.value)
                  && (forall i :: 0 <= i < |group| && group[i].answered ==> first.value <= group[i].triedAt))
    decreases |group|
  {
    if group != [] {
      var last := |group| - 1;
      var rest, first := group[..last], FirstAnswer(group);
      var before := FirstAnswer(rest);
      FirstAnswerIs(rest);
      assert first == if !group[last].answered then before
                      else if before.None? then Some(group[last].triedAt)
                      else Some(Earlier(before.value, group[last].triedAt));
      hide FirstAnswer;
      forall k | 0 <= k < |group| && group[k].answered ensures first.Some? && first.value <= group[k].triedAt {
        if k < last { assert group[k] == rest[k]; }
      }
      if before.Some? {
        var i :| 0 <= i < |rest| && rest[i].answered && rest[i].triedAt == before.value;
        assert group[i] == rest[i];
        assert first.value == group[i].triedAt || (group[last].answered && first.value == group[last].triedAt);
      }
    }
  }

  lemma SlotFromIs(group: seq<Try>)
    requires group != []
    ensures IsSlotOf(SlotFrom(group), group)
  {
    FirstTryIs(group);
    FirstAnswerIs(group);
    hide FirstTry, FirstAnswer;
  }

  /** The slot of one non-empty group, and whether it is judged. */
  method Summarise(group: seq<Try>) returns (s: Slot, judged: bool)
    requires group != []
    ensures s == SlotFrom(group) && judged == Judged(group)
  {
    var time, answeredAt: Option<int> := group[0].triedAt, None;
    judged := false;
    for i := 0 to |group|
      invariant i > 0 ==> time == FirstTry(group[..i])
      invariant i == 0 ==> time == group[0].triedAt
      invariant answeredAt == FirstAnswer(group[..i])
      invariant judged == exists j :: 0 <= j < i && (group[j].answered || group[j].outage)
    {
      assert group[..i + 1][..i] == group[..i];
      time := Earlier(time, group[i].triedAt);
      if group[i].answered {
        answeredAt := Some(if answeredAt.None? then group[i].triedAt else Earlier(answeredAt.value, group[i].triedAt));
      }
      if group[i].answered || group[i].outage { judged := true; }
    }
    assert group[..|group|] == group;
    s := Slot(time, answeredAt);
  }

  ghost predicate Grouped(order: seq<GroupKey>, groups: map<GroupKey, seq<Try>>, tries: seq<Try>,
                          dayStart: int, step: int)
    requires step > 0
  {
    && order == KeysOf(tries, dayStart, step)
    && (forall k :: k in order <==> k in groups)
    && (forall k :: k in groups ==> groups[k] != [])
    && (forall k :: OfKey(tries, k, dayStart, step) == if k in groups then groups[k] else [])
  }

  lemma OneMoreTry(tries: seq<Try>, t: Try, dayStart: int, step: int, k: GroupKey)
    requires step > 0
    ensures OfKey(tries + [t], k, dayStart, step) ==
              if k == KeyOf(t, dayStart, step) then OfKey(tries, k, dayStart, step) + [t]
              else OfKey(tries, k, dayStart, step)
    ensures var k, keys := KeyOf(t, dayStart, step), KeysOf(tries, dayStart, step);
            KeysOf(tries + [t], dayStart, step) == if k in keys then keys else keys + [k]
  {
    assert (tries + [t])[..|tries|] == tries;
  }

  lemma SeenAgain(order: seq<GroupKey>, groups: map<GroupKey, seq<Try>>, tries: seq<Try>, t: Try,
                  dayStart: int, step: int)
    requires step > 0 && Grouped(order, groups, tries, dayStart, step) && KeyOf(t, dayStart, step) in groups
    ensures var k := KeyOf(t, dayStart, step);
            Grouped(order, groups[k := groups[k] + [t]], tries + [t], dayStart, step)
  {
    var k := KeyOf(t, dayStart, step);
    OneMoreTry(tries, t, dayStart, step, k);
    hide KeyOf, OfKey, KeysOf;
    var grown := groups[k := groups[k] + [t]];
    forall x ensures OfKey(tries + [t], x, dayStart, step) == if x in grown then grown[x] else [] {
      OneMoreTry(tries, t, dayStart, step, x);
    }
  }

  lemma SeenFirst(order: seq<GroupKey>, groups: map<GroupKey, seq<Try>>, tries: seq<Try>, t: Try,
                  dayStart: int, step: int)
    requires step > 0 && Grouped(order, groups, tries, dayStart, step) && KeyOf(t, dayStart, step) !in groups
    ensures var k := KeyOf(t, dayStart, step);
            Grouped(order + [k], groups[k := [t]], tries + [t], dayStart, step)
  {
    var k := KeyOf(t, dayStart, step);
    OneMoreTry(tries, t, dayStart, step, k);
    hide KeyOf, OfKey, KeysOf;
    var grown := groups[k := [t]];
    forall x ensures OfKey(tries + [t], x, dayStart, step) == if x in grown then grown[x] else [] {
      OneMoreTry(tries, t, dayStart, step, x);
    }
  }

  method GroupTries(tries: seq<Try>, dayStart: int, step: int)
    returns (order: seq<GroupKey>, groups: map<GroupKey, seq<Try>>)
    requires step > 0
    ensures Grouped(order, groups, tries, dayStart, step)
  {
    order, groups := [], map[];
    assert Grouped(order, groups, tries[..0], dayStart, step);
    hide *;
    for i := 0 to |tries|
      invariant Grouped(order, groups, tries[..i], dayStart, step)
    {
      var k := KeyOf(tries[i], dayStart, step);
      assert tries[..i + 1] == tries[..i] + [tries[i]];
      if k in groups {
        SeenAgain(order, groups, tries[..i], tries[i], dayStart, step);
        groups := groups[k := groups[k] + [tries[i]]];
      } else {
        SeenFirst(order, groups, tries[..i], tries[i], dayStart, step);
        order, groups := order + [k], groups[k := [tries[i]]];
      }
    }
    assert tries[..|tries|] == tries;
  }

  /** Of the keys, those whose group holds an answered or an outage try. */
  function JudgedKeys(order: seq<GroupKey>, tries: seq<Try>, dayStart: int, step: int): seq<GroupKey>
    requires step > 0
  {
    if order == [] then []
    else
      var last := order[|order| - 1];
      JudgedKeys(order[..|order| - 1], tries, dayStart, step)
      + if Judged(OfKey(tries, last, dayStart, step)) then [last] else []
  }

  ghost predicate Distinct(keys: seq<GroupKey>) {
    forall i, j :: 0 <= i < |keys| && 0 <= j < |keys| && keys[i] == keys[j] ==> i == j
  }

  lemma {:induction false} KeysAreDistinct(tries: seq<Try>, dayStart: int, step: int)
    requires step > 0
    ensures Distinct(KeysOf(tries, dayStart, step))
    decreases |tries|
  {
    if tries != [] { KeysAreDistinct(tries[..|tries| - 1], dayStart, step); }
  }

  lemma {:induction false} JudgedKeysAre(order: seq<GroupKey>, tries: seq<Try>, dayStart: int, step: int)
    requires step > 0 && Distinct(order)
    ensures Distinct(JudgedKeys(order, tries, dayStart, step))
    ensures forall k :: k in JudgedKeys(order, tries, dayStart, step) <==>
              k in order && Judged(OfKey(tries, k, dayStart, step))
    decreases |order|
  {
    hide Judged, OfKey;
    if order != [] {
      var last := |order| - 1;
      JudgedKeysAre(order[..last], tries, dayStart, step);
      assert order == order[..last] + [order[last]];
      assert order[last] !in order[..last];
    }
  }

  lemma JudgedKeysSnoc(order: seq<GroupKey>, k: GroupKey, tries: seq<Try>, dayStart: int, step: int)
    requires step > 0
    ensures JudgedKeys(order + [k], tries, dayStart, step) == JudgedKeys(order, tries, dayStart, step)
              + if Judged(OfKey(tries, k, dayStart, step)) then [k] else []
  {
    assert (order + [k])[..|order|] == order;
  }

  lemma GroupsAre(order: seq<GroupKey>, groups: map<GroupKey, seq<Try>>, tries: seq<Try>, dayStart: int, step: int)
    requires step > 0 && Grouped(order, groups, tries, dayStart, step)
    ensures order == KeysOf(tries, dayStart, step)
    ensures forall i :: 0 <= i < |order| ==>
              order[i] in groups && groups[order[i]] == OfKey(tries, order[i], dayStart, step) != []
  {
    assert forall i :: 0 <= i < |order| ==> order[i] in order;
  }

  lemma {:induction false} UnseenKeysAreEmpty(tries: seq<Try>, k: GroupKey, dayStart: int, step: int)
    requires step > 0 && k !in KeysOf(tries, dayStart, step)
    ensures OfKey(tries, k, dayStart, step) == []
    decreases |tries|
  {
    if tries != [] { UnseenKeysAreEmpty(tries[..|tries| - 1], k, dayStart, step); }
  }

  /** The keys a day's slots are made from: each group that holds an answered or an outage try, once. */
  lemma EachJudgedGroupOnce(tries: seq<Try>, dayStart: int, step: int)
    requires step > 0
    ensures var keys := JudgedKeys(KeysOf(tries, dayStart, step), tries, dayStart, step);
            Distinct(keys) && forall k :: k in keys <==> Judged(OfKey(tries, k, dayStart, step))
  {
    KeysAreDistinct(tries, dayStart, step);
    JudgedKeysAre(KeysOf(tries, dayStart, step), tries, dayStart, step);
    hide JudgedKeys, Distinct, OfKey, KeysOf;
    forall k | k !in KeysOf(tries, dayStart, step) ensures !Judged(OfKey(tries, k, dayStart, step)) {
      UnseenKeysAreEmpty(tries, k, dayStart, step);
    }
  }

  /** One slot a key, in order. */
  ghost function SlotsFor(keys: seq<GroupKey>, tries: seq<Try>, dayStart: int, step: int): seq<Slot>
    requires step > 0
  {
    if keys == [] then []
    else
      var last := |keys| - 1;
      SlotsFor(keys[..last], tries, dayStart, step) + [SlotFrom(OfKey(tries, keys[last], dayStart, step))]
  }

  /** The judged slots of one site-day, in the order their groups are first seen. */
  ghost function SlotsOfDay(tries: seq<Try>, dayStart: int, step: int): seq<Slot>
    requires step > 0
  {
    SlotsFor(JudgedKeys(KeysOf(tries, dayStart, step), tries, dayStart, step), tries, dayStart, step)
  }

  lemma JudgedIsNotEmpty(group: seq<Try>)
    requires Judged(group)
    ensures group != []
  {
  }

  lemma {:induction false} SlotsForAre(keys: seq<GroupKey>, tries: seq<Try>, dayStart: int, step: int)
    requires step > 0 && forall i :: 0 <= i < |keys| ==> Judged(OfKey(tries, keys[i], dayStart, step))
    ensures var slots := SlotsFor(keys, tries, dayStart, step);
            && |slots| == |keys|
            && forall i :: 0 <= i < |keys| ==> IsSlotOf(slots[i], OfKey(tries, keys[i], dayStart, step))
    decreases |keys|
  {
    hide IsSlotOf, OfKey;
    if keys != [] {
      var last := |keys| - 1;
      JudgedIsNotEmpty(OfKey(tries, keys[last], dayStart, step));
      SlotFromIs(OfKey(tries, keys[last], dayStart, step));
      hide Judged, SlotFrom;
      SlotsForAre(keys[..last], tries, dayStart, step);
      var rest := SlotsFor(keys[..last], tries, dayStart, step);
      var slots := SlotsFor(keys, tries, dayStart, step);
      assert slots == rest + [SlotFrom(OfKey(tries, keys[last], dayStart, step))];
      forall i | 0 <= i < |keys| ensures IsSlotOf(slots[i], OfKey(tries, keys[i], dayStart, step)) {
        if i < last { assert slots[i] == rest[i] && keys[i] == keys[..last][i]; }
      }
    }
  }

  lemma OneMoreGroup(order: seq<GroupKey>, k: GroupKey, tries: seq<Try>, dayStart: int, step: int)
    requires step > 0
    ensures var group := OfKey(tries, k, dayStart, step);
            var slots := SlotsFor(JudgedKeys(order, tries, dayStart, step), tries, dayStart, step);
            SlotsFor(JudgedKeys(order + [k], tries, dayStart, step), tries, dayStart, step) ==
              if Judged(group) then slots + [SlotFrom(group)] else slots
  {
    var keys := JudgedKeys(order, tries, dayStart, step);
    JudgedKeysSnoc(order, k, tries, dayStart, step);
    assert (keys + [k])[..|keys|] == keys && keys + [] == keys;
  }

  // ---------------------------------------------------------------- what a day's slots are

  predicate InInterval(at: int, n: int, dayStart: int, step: int) {
    dayStart + n * step <= at < dayStart + (n + 1) * step
  }

  /** Two tries belong to one slot: daytime tries of one refresh interval counted from the day's start,
      gap-fill tries of one close attempt, where a missing one counts as 0, or tries of one evening name. */
  ghost predicate Share(a: Try, b: Try, dayStart: int, step: int) {
    || (a.kind.Daytime? && b.kind.Daytime?
        && exists n :: InInterval(a.triedAt, n, dayStart, step) && InInterval(b.triedAt, n, dayStart, step))
    || (a.kind.GapFill? && b.kind.GapFill?
        && (a.closeAttempt == b.closeAttempt
            || (a.closeAttempt in {None, Some(0)} && b.closeAttempt in {None, Some(0)})))
    || (a.kind.Evening? && b.kind.Evening? && a.kind.name == b.kind.name)
  }

  lemma Times(a: int, b: int, step: int)
    requires a <= b && step > 0
    ensures a * step <= b * step
  {
    assert (b - a) * step >= 0;
  }

  lemma Quotient(x: int, step: int)
    requires step > 0
    ensures x / step * step <= x < x / step * step + step
  {
  }

  lemma OneInterval(at: int, n: int, dayStart: int, step: int)
    requires step > 0
    ensures InInterval(at, n, dayStart, step) <==> n == (at - dayStart) / step
  {
    var q := (at - dayStart) / step;
    Quotient(at - dayStart, step);
    assert (n + 1) * step == n * step + step && (q + 1) * step == q * step + step;
    if n < q { Times(n + 1, q, step); }
    if n > q { Times(q + 1, n, step); }
  }

  /** The key a try is grouped by is the same exactly for tries of one slot. */
  lemma GroupsShare(a: Try, b: Try, dayStart: int, step: int)
    requires step > 0
    ensures KeyOf(a, dayStart, step) == KeyOf(b, dayStart, step) <==> Share(a, b, dayStart, step)
  {
    var n := (a.triedAt - dayStart) / step;
    OneInterval(a.triedAt, n, dayStart, step);
    OneInterval(b.triedAt, n, dayStart, step);
    forall m ensures InInterval(a.triedAt, m, dayStart, step) ==> m == n { OneInterval(a.triedAt, m, dayStart, step); }
  }

  /** The slot of the tries that share with `rep`: their earliest try and their earliest answer. */
  ghost predicate IsSlotAround(s: Slot, rep: Try, tries: seq<Try>, dayStart: int, step: int) {
    && (exists t :: t in tries && Share(t, rep, dayStart, step) && t.triedAt == s.time)
    && (forall t :: t in tries && Share(t, rep, dayStart, step) ==> s.time <= t.triedAt)
    && (s.answeredAt.None? <==> forall t :: t in tries && Share(t, rep, dayStart, step) ==> !t.answered)
    && (s.answeredAt.Some? ==>
          && (exists t :: t in tries && Share(t, rep, dayStart, step) && t.answered && t.triedAt == s.answeredAt.value)
          && (forall t :: t in tries && Share(t, rep, dayStart, step) && t.answered ==>
                s.answeredAt.value <= t.triedAt))
  }

  /** An answered or an outage try shares with `rep`. */
  ghost predicate JudgedAround(rep: Try, tries: seq<Try>, dayStart: int, step: int) {
    exists t :: t in tries && Share(t, rep, dayStart, step) && (t.answered || t.outage)
  }

  ghost predicate SharesWithOne(t: Try, firsts: seq<nat>, tries: seq<Try>, dayStart: int, step: int) {
    exists i :: 0 <= i < |firsts| && firsts[i] < |tries| && Share(t, tries[firsts[i]], dayStart, step)
  }

  /** The slots of a day, the i-th being that of the tries that share with the one at firsts[i]: the
      first of them, in order, of each slot that holds an answered or an outage try. */
  ghost predicate SlotsAre(slots: seq<Slot>, firsts: seq<nat>, tries: seq<Try>, dayStart: int, step: int) {
    && |firsts| == |slots|
    && (forall i, j :: 0 <= i < j < |firsts| ==> firsts[i] < firsts[j])
    && (forall i :: 0 <= i < |firsts| ==> firsts[i] < |tries|)
    && (forall i, j :: 0 <= i < |firsts| && 0 <= j < firsts[i] ==>
          !Share(tries[j], tries[firsts[i]], dayStart, step))
    && (forall i :: 0 <= i < |firsts| ==> JudgedAround(tries[firsts[i]], tries, dayStart, step))
    && (forall t :: t in tries && (t.answered || t.outage) ==> SharesWithOne(t, firsts, tries, dayStart, step))
    && (forall i :: 0 <= i < |slots| ==> IsSlotAround(slots[i], tries[firsts[i]], tries, dayStart, step))
  }

  /** Each key with the position of its first try, in order. */
  ghost predicate FirstSeen(keys: seq<GroupKey>, firsts: seq<nat>, tries: seq<Try>, dayStart: int, step: int)
    requires step > 0
  {
    && |firsts| == |keys|
    && (forall i, j :: 0 <= i < j < |firsts| ==> firsts[i] < firsts[j])
    && (forall i :: 0 <= i < |firsts| ==> firsts[i] < |tries| && KeyOf(tries[firsts[i]], dayStart, step) == keys[i])
    && (forall i, j :: 0 <= i < |firsts| && 0 <= j < firsts[i] ==> KeyOf(tries[j], dayStart, step) != keys[i])
  }

  lemma {:induction false} KeysInOrder(tries: seq<Try>, dayStart: int, step: int) returns (firsts: seq<nat>)
    requires step > 0
    ensures FirstSeen(KeysOf(tries, dayStart, step), firsts, tries, dayStart, step)
    ensures forall t :: t in tries ==> KeyOf(t, dayStart, step) in KeysOf(tries, dayStart, step)
    decreases |tries|
  {
    firsts := [];
    if tries != [] {
      var last := |tries| - 1;
      var rest := KeysOf(tries[..last], dayStart, step);
      firsts := KeysInOrder(tries[..last], dayStart, step);
      assert tries == tries[..last] + [tries[last]];
      var k := KeyOf(tries[last], dayStart, step);
      if k !in rest {
        assert forall j :: 0 <= j < last ==> tries[..last][j] == tries[j] && tries[j] in tries[..last];
        firsts := firsts + [last];
      }
    }
  }

  lemma {:induction false} JudgedInOrder(order: seq<GroupKey>, firsts: seq<nat>, tries: seq<Try>,
                                         dayStart: int, step: int)
    returns (judged: seq<nat>)
    requires step > 0 && FirstSeen(order, firsts, tries, dayStart, step)
    ensures FirstSeen(JudgedKeys(order, tries, dayStart, step), judged, tries, dayStart, step)
    ensures forall n :: n in judged ==> n in firsts
    decreases |order|
  {
    judged := [];
    if order != [] {
      var last := |order| - 1;
      assert FirstSeen(order[..last], firsts[..last], tries, dayStart, step);
      judged := JudgedInOrder(order[..last], firsts[..last], tries, dayStart, step);
      assert forall n :: n in firsts[..last] ==> n in firsts && n < firsts[last];
      if Judged(OfKey(tries, order[last], dayStart, step)) {
        var keys := JudgedKeys(order[..last], tries, dayStart, step);
        assert JudgedKeys(order, tries, dayStart, step) == keys + [order[last]];
        SeenLater(keys, judged, order[last], firsts[last], tries, dayStart, step);
        judged := judged + [firsts[last]];
      }
    }
  }

  lemma SeenLater(keys: seq<GroupKey>, firsts: seq<nat>, k: GroupKey, n: nat, tries: seq<Try>,
                  dayStart: int, step: int)
    requires step > 0 && FirstSeen(keys, firsts, tries, dayStart, step)
    requires n < |tries| && KeyOf(tries[n], dayStart, step) == k
    requires forall j :: 0 <= j < n ==> KeyOf(tries[j], dayStart, step) != k
    requires forall m :: m in firsts ==> m < n
    ensures FirstSeen(keys + [k], firsts + [n], tries, dayStart, step)
  {
    hide KeyOf;
    assert forall i :: 0 <= i < |firsts| ==> firsts[i] in firsts;
  }

  lemma {:induction false} OfKeyAre(tries: seq<Try>, k: GroupKey, dayStart: int, step: int)
    requires step > 0
    ensures forall t :: t in OfKey(tries, k, dayStart, step) <==> t in tries && KeyOf(t, dayStart, step) == k
    decreases |tries|
  {
    if tries != [] {
      var last := |tries| - 1;
      OfKeyAre(tries[..last], k, dayStart, step);
      assert tries == tries[..last] + [tries[last]];
    }
  }

  lemma SlotAround(s: Slot, rep: Try, tries: seq<Try>, dayStart: int, step: int)
    requires step > 0 && IsSlotOf(s, OfKey(tries, KeyOf(rep, dayStart, step), dayStart, step))
    ensures IsSlotAround(s, rep, tries, dayStart, step)
  {
    var k := KeyOf(rep, dayStart, step);
    var group := OfKey(tries, k, dayStart, step);
    OfKeyAre(tries, k, dayStart, step);
    forall t ensures t in group <==> t in tries && Share(t, rep, dayStart, step) {
      GroupsShare(t, rep, dayStart, step);
    }
    hide Share, KeyOf, OfKey;
    assert forall i :: 0 <= i < |group| ==> group[i] in group;
  }

  /** A day's slots, without their keys. */
  lemma SlotsOfDayAre(tries: seq<Try>, dayStart: int, step: int)
    requires step > 0
    ensures exists firsts :: SlotsAre(SlotsOfDay(tries, dayStart, step), firsts, tries, dayStart, step)
  {
    var keys := JudgedKeys(KeysOf(tries, dayStart, step), tries, dayStart, step);
    var slots := SlotsOfDay(tries, dayStart, step);
    EachJudgedGroupOnce(tries, dayStart, step);
    var all := KeysInOrder(tries, dayStart, step);
    var firsts := JudgedInOrder(KeysOf(tries, dayStart, step), all, tries, dayStart, step);
    hide JudgedKeys, KeysOf, SlotsFor, IsSlotOf, OfKey, Judged, Distinct, KeyOf, FirstSeen, Share;
    assert forall i :: 0 <= i < |keys| ==> keys[i] in keys;
    SlotsForAre(keys, tries, dayStart, step);
    SlotsFit(slots, keys, firsts, tries, dayStart, step);
  }

  lemma JudgedMeans(k: GroupKey, tries: seq<Try>, dayStart: int, step: int)
    requires step > 0
    ensures Judged(OfKey(tries, k, dayStart, step)) <==>
            exists t :: t in tries && KeyOf(t, dayStart, step) == k && (t.answered || t.outage)
  {
    OfKeyAre(tries, k, dayStart, step);
    var group := OfKey(tries, k, dayStart, step);
    hide KeyOf, OfKey;
    assert forall i :: 0 <= i < |group| ==> group[i] in group;
  }

  lemma SlotsFit(slots: seq<Slot>, keys: seq<GroupKey>, firsts: seq<nat>, tries: seq<Try>, dayStart: int, step: int)
    requires step > 0 && FirstSeen(keys, firsts, tries, dayStart, step) && |slots| == |keys|
    requires forall k :: k in keys <==> Judged(OfKey(tries, k, dayStart, step))
    requires forall i :: 0 <= i < |keys| ==> IsSlotOf(slots[i], OfKey(tries, keys[i], dayStart, step))
    ensures SlotsAre(slots, firsts, tries, dayStart, step)
  {
    hide KeyOf, OfKey, Judged, IsSlotOf, Share, IsSlotAround;
    forall a, b ensures KeyOf(a, dayStart, step) == KeyOf(b, dayStart, step) <==> Share(a, b, dayStart, step) {
      GroupsShare(a, b, dayStart, step);
    }
    forall i | 0 <= i < |slots| ensures IsSlotAround(slots[i], tries[firsts[i]], tries, dayStart, step) {
      SlotAround(slots[i], tries[firsts[i]], tries, dayStart, step);
    }
    forall i, j | 0 <= i < |firsts| && 0 <= j < firsts[i]
      ensures !Share(tries[j], tries[firsts[i]], dayStart, step)
    {
      GroupsShare(tries[j], tries[firsts[i]], dayStart, step);
    }
    forall i | 0 <= i < |firsts| ensures JudgedAround(tries[firsts[i]], tries, dayStart, step) {
      assert keys[i] in keys;
      JudgedMeans(keys[i], tries, dayStart, step);
    }
    forall t | t in tries && (t.answered || t.outage) ensures SharesWithOne(t, firsts, tries, dayStart, step) {
      var k := KeyOf(t, dayStart, step);
      JudgedMeans(k, tries, dayStart, step);
      var i :| 0 <= i < |keys| && keys[i] == k;
      assert Share(t, tries[firsts[i]], dayStart, step);
    }
  }

  /** The grouping and summarising loops. */
  method DaySlots(tries: seq<Try>, dayStart: int, step: int) returns (slots: seq<Slot>)
    requires step > 0
    ensures slots == SlotsOfDay(tries, dayStart, step)
    ensures exists firsts :: SlotsAre(slots, firsts, tries, dayStart, step)
  {
    hide *;
    SlotsOfDayAre(tries, dayStart, step);
    var order, groups := GroupTries(tries, dayStart, step);
    GroupsAre(order, groups, tries, dayStart, step);
    SlotsOfDayIs(tries, dayStart, step);
    slots := [];
    assert order[..0] == [];
    for i := 0 to |order|
      invariant slots == SlotsFor(JudgedKeys(order[..i], tries, dayStart, step), tries, dayStart, step)
    {
      var s, judged := Summarise(groups[order[i]]);
      assert order[..i + 1] == order[..i] + [order[i]];
      OneMoreGroup(order[..i], order[i], tries, dayStart, step);
      if judged { slots := slots + [s]; }
    }
    assert order[..|order|] == order;
  }

  lemma SlotsOfDayIs(tries: seq<Try>, dayStart: int, step: int)
    requires step > 0
    ensures SlotsOfDay(tries, dayStart, step) ==
              SlotsFor(JudgedKeys(KeysOf(tries, dayStart, step), tries, dayStart, step), tries, dayStart, step)
    ensures SlotsFor(JudgedKeys([], tries, dayStart, step), tries, dayStart, step) == []
  {
  }

  // ---------------------------------------------------------------- newest first

  function Insert(x: Slot, t: seq<Slot>): seq<Slot> {
    if t == [] || t[0].time <= x.time then [x] + t else [t[0]] + Insert(x, t[1..])
  }

  /** `sorted(..., key=time, reverse=True)`: newest first, equal times in their given order. */
  function NewestFirst(s: seq<Slot>): seq<Slot> {
    if s == [] then [] else Insert(s[0], NewestFirst(s[1..]))
  }

  function From(e: int, s: seq<Slot>): seq<Slot> {
    if s == [] then [] else (if s[0].time >= e then [s[0]] else []) + From(e, s[1..])
  }

  function Before(e: int, s: seq<Slot>): seq<Slot> {
    if s == [] then [] else (if s[0].time < e then [s[0]] else []) + Before(e, s[1..])
  }

  function SameTime(t: int, s: seq<Slot>): seq<Slot> {
    if s == [] then [] else (if s[0].time == t then [s[0]] else []) + SameTime(t, s[1..])
  }

  ghost predicate Descending(s: seq<Slot>) {
    forall i, j :: 0 <= i < j < |s| ==> s[i].time >= s[j].time
  }

  lemma {:induction false} InsertMembers(x: Slot, t: seq<Slot>)
    ensures multiset(Insert(x, t)) == multiset{x} + multiset(t)
    ensures forall y :: y in Insert(x, t) <==> y == x || y in t
    decreases |t|
  {
    if t != [] && t[0].time > x.time {
      InsertMembers(x, t[1..]);
      assert t == [t[0]] + t[1..];
    }
  }

  lemma {:induction false} InsertDescends(x: Slot, t: seq<Slot>)
    requires Descending(t)
    ensures Descending(Insert(x, t))
    decreases |t|
  {
    if t != [] && t[0].time > x.time {
      InsertDescends(x, t[1..]);
      InsertMembers(x, t[1..]);
      var r := Insert(x, t[1..]);
      forall j | 0 <= j < |r| ensures t[0].time >= r[j].time {
        assert r[j] in r;
      }
    }
  }

  lemma SameTimeCons(x: Slot, t: seq<Slot>, at: int)
    ensures SameTime(at, [x] + t) == if x.time == at then [x] + SameTime(at, t) else SameTime(at, t)
  {
    assert ([x] + t)[1..] == t;
  }

  lemma {:induction false} InsertKeepsTies(x: Slot, t: seq<Slot>, at: int)
    ensures SameTime(at, Insert(x, t)) == if x.time == at then [x] + SameTime(at, t) else SameTime(at, t)
    decreases |t|
  {
    SameTimeCons(x, t, at);
    if t != [] && t[0].time > x.time {
      InsertKeepsTies(x, t[1..], at);
      SameTimeCons(t[0], Insert(x, t[1..]), at);
      SameTimeCons(t[0], t[1..], at);
      assert t == [t[0]] + t[1..];
    }
  }

  /** The sort is the stable one: descending, a permutation, and order-preserving at equal times. */
  lemma {:induction false} NewestFirstSorts(s: seq<Slot>, at: int)
    ensures Descending(NewestFirst(s)) && multiset(NewestFirst(s)) == multiset(s)
    ensures SameTime(at, NewestFirst(s)) == SameTime(at, s)
    decreases |s|
  {
    if s != [] {
      NewestFirstSorts(s[1..], at);
      InsertMembers(s[0], NewestFirst(s[1..]));
      InsertDescends(s[0], NewestFirst(s[1..]));
      InsertKeepsTies(s[0], NewestFirst(s[1..]), at);
      assert s == [s[0]] + s[1..];
    }
  }

  lemma {:induction false} NewestFirstMembers(s: seq<Slot>)
    ensures forall y :: y in NewestFirst(s) <==> y in s
    decreases |s|
  {
    if s != [] {
      NewestFirstMembers(s[1..]);
      InsertMembers(s[0], NewestFirst(s[1..]));
      assert s == [s[0]] + s[1..];
    }
  }

  lemma {:induction false} InsertAcross(x: Slot, a: seq<Slot>, b: seq<Slot>, e: int)
    requires forall y :: y in a ==> y.time >= e
    requires forall y :: y in b ==> y.time < e
    ensures Insert(x, a + b) == if x.time >= e then Insert(x, a) + b else a + Insert(x, b)
    decreases |a|
  {
    InsertIs(x, a + b);
    InsertIs(x, a);
    hide Insert;
    if a == [] {
      assert a + b == b;
      if b != [] { assert b[0] in b; }
      InsertIs(x, b);
    } else {
      assert a[0] in a && (a + b)[1..] == a[1..] + b;
      InsertAcross(x, a[1..], b, e);
      if a[0].time > x.time {
        assert a == [a[0]] + a[1..];
        Concatenates([a[0]], a[1..], Insert(x, b));
        Concatenates([a[0]], Insert(x, a[1..]), b);
      } else {
        Concatenates([x], a, b);
      }
    }
  }

  lemma InsertIs(x: Slot, t: seq<Slot>)
    ensures Insert(x, t) == if t == [] || t[0].time <= x.time then [x] + t else [t[0]] + Insert(x, t[1..])
  {
  }

  lemma {:induction false} Filtered(e: int, s: seq<Slot>)
    ensures forall y :: y in From(e, s) <==> y in s && y.time >= e
    ensures forall y :: y in Before(e, s) <==> y in s && y.time < e
    decreases |s|
  {
    if s != [] {
      Filtered(e, s[1..]);
      assert s == [s[0]] + s[1..];
    }
  }

  /** Sorting splits at any instant. */
  lemma {:induction false} SortSplits(e: int, s: seq<Slot>)
    ensures NewestFirst(s) == NewestFirst(From(e, s)) + NewestFirst(Before(e, s))
    decreases |s|
  {
    if s != [] {
      var x, rest := s[0], s[1..];
      SortSplits(e, rest);
      Filtered(e, rest);
      NewestFirstMembers(From(e, rest));
      NewestFirstMembers(Before(e, rest));
      InsertAcross(x, NewestFirst(From(e, rest)), NewestFirst(Before(e, rest)), e);
      SortSplitsStep(e, s);
    }
  }

  lemma SortSplitsStep(e: int, s: seq<Slot>)
    requires s != []
    ensures s[0].time >= e ==>
              NewestFirst(From(e, s)) == Insert(s[0], NewestFirst(From(e, s[1..]))) && Before(e, s) == Before(e, s[1..])
    ensures s[0].time < e ==>
              NewestFirst(Before(e, s)) == Insert(s[0], NewestFirst(Before(e, s[1..]))) && From(e, s) == From(e, s[1..])
  {
    var x, rest := s[0], s[1..];
    if x.time >= e {
      assert From(e, s) == [x] + From(e, rest) && ([x] + From(e, rest))[1..] == From(e, rest);
      assert [] + Before(e, rest) == Before(e, rest);
    } else {
      assert Before(e, s) == [x] + Before(e, rest) && ([x] + Before(e, rest))[1..] == Before(e, rest);
      assert [] + From(e, rest) == From(e, rest);
    }
  }

  lemma FilterCons(e: int, x: Slot, s: seq<Slot>)
    ensures From(e, [x] + s) == if x.time >= e then [x] + From(e, s) else From(e, s)
    ensures Before(e, [x] + s) == if x.time < e then [x] + Before(e, s) else Before(e, s)
  {
    assert ([x] + s)[1..] == s;
    assert [] + From(e, s) == From(e, s) && [] + Before(e, s) == Before(e, s);
  }

  lemma Regroup(x: Slot, a: seq<Slot>, b: seq<Slot>)
    ensures [x] + (a + b) == ([x] + a) + b
  {
  }

  lemma {:induction false} FilterAppend(e: int, s: seq<Slot>, t: seq<Slot>)
    ensures From(e, s + t) == From(e, s) + From(e, t) && Before(e, s + t) == Before(e, s) + Before(e, t)
    decreases |s|
  {
    if s == [] {
      assert s + t == t && [] + From(e, t) == From(e, t) && [] + Before(e, t) == Before(e, t);
    } else {
      var x, rest := s[0], s[1..];
      hide From, Before;
      Regroup(x, rest, t);
      assert s == [x] + rest;
      FilterAppend(e, rest, t);
      FilterCons(e, x, rest + t);
      FilterCons(e, x, rest);
      if x.time >= e {
        Regroup(x, From(e, rest), From(e, t));
      } else {
        Regroup(x, Before(e, rest), Before(e, t));
      }
    }
  }

  lemma {:induction false} AllBefore(e: int, s: seq<Slot>)
    requires forall y :: y in s ==> y.time < e
    ensures From(e, s) == [] && Before(e, s) == s
    decreases |s|
  {
    if s != [] {
      assert s[0] in s && s == [s[0]] + s[1..];
      AllBefore(e, s[1..]);
    }
  }

  // ---------------------------------------------------------------- the stream

  /** One day as the walk reads it: the record's bounds and the day's tries. */
  datatype SiteDay = SiteDay(start: int, end: int, tries: seq<Try>)

  /** A day's end and its judged slots. */
  datatype Day = Day(end: int, slots: seq<Slot>)

  ghost function JudgedDays(days: seq<SiteDay>, step: int): (r: seq<Day>)
    requires step > 0
    ensures |r| == |days|
  {
    seq(|days|, i requires 0 <= i < |days| => Day(days[i].end, SlotsOfDay(days[i].tries, days[i].start, step)))
  }

  /** What the walk yields from days still to read, newest first, with slots waiting from later ones. */
  ghost function Stream(days: seq<Day>, pending: seq<Slot>): seq<Slot>
    decreases |days|
  {
    if days == [] then NewestFirst(pending)
    else
      var held := pending + days[0].slots;
      NewestFirst(From(days[0].end, held)) + Stream(days[1..], Before(days[0].end, held))
  }

  ghost function AllSlots(days: seq<Day>): seq<Slot> {
    if days == [] then [] else days[0].slots + AllSlots(days[1..])
  }

  /** Every slot of a day is earlier than the end of the day after it, and so of every later day. */
  ghost predicate InDayOrder(days: seq<Day>) {
    && (forall i :: 0 <= i < |days| - 1 ==> days[i + 1].end <= days[i].end)
    && (forall i, s :: 0 <= i < |days| - 1 && s in days[i + 1].slots ==> s.time < days[i].end)
  }

  lemma {:induction false} LaterSlotsBefore(days: seq<Day>, e: int)
    requires InDayOrder(days)
    requires days != [] ==> days[0].end <= e && forall s :: s in days[0].slots ==> s.time < e
    ensures forall s :: s in AllSlots(days) ==> s.time < e
    decreases |days|
  {
    if days != [] {
      var rest := days[1..];
      assert InDayOrder(rest) by {
        assert forall i :: 0 <= i < |rest| ==> rest[i] == days[i + 1];
      }
      if rest != [] {
        assert rest[0] == days[0 + 1];
        LaterSlotsBefore(rest, e);
      }
    }
  }

  lemma InDayOrderTail(days: seq<Day>)
    requires days != [] && InDayOrder(days)
    ensures InDayOrder(days[1..])
    ensures forall s :: s in AllSlots(days[1..]) ==> s.time < days[0].end
  {
    var rest := days[1..];
    assert forall i :: 0 <= i < |rest| ==> rest[i] == days[i + 1];
    if rest != [] { assert rest[0] == days[0 + 1]; }
    LaterSlotsBefore(rest, days[0].end);
  }

  /** Sorting what is held and what is to come, as the walk does it. */
  lemma HeldThenLater(e: int, held: seq<Slot>, later: seq<Slot>)
    requires forall y :: y in later ==> y.time < e
    ensures NewestFirst(held + later) == NewestFirst(From(e, held)) + NewestFirst(Before(e, held) + later)
  {
    SortSplits(e, held + later);
    FilterAppend(e, held, later);
    AllBefore(e, later);
    hide *;
    assert From(e, held) + [] == From(e, held);
  }

  lemma Concatenates(a: seq<Slot>, b: seq<Slot>, c: seq<Slot>)
    ensures a + (b + c) == (a + b) + c
  {
  }

  /** The lazy walk yields exactly the stable newest-first sort of all slots of the days read. */
  lemma {:induction false} StreamIsSorted(days: seq<Day>, pending: seq<Slot>)
    requires InDayOrder(days)
    ensures Stream(days, pending) == NewestFirst(pending + AllSlots(days))
    decreases |days|
  {
    hide NewestFirst, From, Before;
    if days == [] {
      assert pending + [] == pending;
    } else {
      var e, later := days[0].end, AllSlots(days[1..]);
      var held := pending + days[0].slots;
      InDayOrderTail(days);
      StreamIsSorted(days[1..], Before(e, held));
      hide InDayOrder;
      Concatenates(pending, days[0].slots, later);
      HeldThenLater(e, held, later);
    }
  }

  /** The generator: it reads a day only when what it has read so far does not settle the next slot. */
  class SlotStream {
    const days: seq<SiteDay>
    const step: int
    var read: nat
    var pending: seq<Slot>
    var ready: seq<Slot>

    ghost predicate Valid()
      reads this
    {
      step > 0 && read <= |days|
    }

    /** What is still to come. */
    ghost function Rest(): seq<Slot>
      requires Valid()
      reads this
    {
      ready + Stream(JudgedDays(days, step)[read..], pending)
    }

    constructor (days: seq<SiteDay>, step: int)
      requires step > 0
      ensures Valid() && this.days == days && this.step == step && read == 0
      ensures Rest() == Stream(JudgedDays(days, step), [])
    {
      this.days, this.step, read, pending, ready := days, step, 0, [], [];
      new;
      var all := JudgedDays(days, step);
      assert all[0..] == all && [] + Stream(all, []) == Stream(all, []);
    }

    method ReadDay()
      requires Valid() && ready == [] && read < |days|
      modifies this
      ensures Valid() && read == old(read) + 1 && Rest() == old(Rest())
    {
      hide From, Before, NewestFirst, SlotsOfDay;
      var day := days[read];
      ghost var all := JudgedDays(days, step);
      assert all[read..][1..] == all[read + 1..];
      var slots := DaySlots(day.tries, day.start, step);
      assert all[read..][0] == Day(day.end, slots);
      var held := pending + slots;
      ready, pending, read := NewestFirst(From(day.end, held)), Before(day.end, held), read + 1;
    }

    method Next() returns (slot: Option<Slot>)
      requires Valid()
      modifies this
      ensures Valid()
      ensures old(ready) != [] ==> read == old(read)
      ensures if old(Rest()) == [] then slot.None? && Rest() == []
              else slot == Some(old(Rest())[0]) && Rest() == old(Rest())[1..]
    {
      ghost var all := Rest();
      while ready == [] && read < |days|
        invariant Valid() && Rest() == all && (old(ready) != [] ==> read == old(read))
        invariant old(ready) != [] ==> ready == old(ready)
        decreases |days| - read
      {
        ReadDay();
      }
      ghost var tail := Stream(JudgedDays(days, step)[read..], pending);
      if ready == [] {
        assert JudgedDays(days, step)[read..] == [];
        ready, pending := NewestFirst(pending), [];
        tail := [];
      }
      assert Stream(JudgedDays(days, step)[read..], pending) == tail && all == ready + tail;
      if ready == [] { return None; }
      slot := Some(ready[0]);
      assert all[1..] == ready[1..] + tail;
      ready := ready[1..];
    }
  }

  // ---------------------------------------------------------------- the verdict

  datatype Verdict = Verdict(down: Option<(int, nat)>, recoveredAt: Option<int>)

  /** The length of the run of slots at the front that are all down, or all answered. */
  ghost function Front(s: seq<Slot>, down: bool): (n: nat)
    ensures n <= |s| && (forall i :: 0 <= i < n ==> s[i].answeredAt.None? == down)
    ensures n < |s| ==> s[n].answeredAt.None? != down
  {
    if s == [] || s[0].answeredAt.None? != down then 0 else 1 + Front(s[1..], down)
  }

  /** The verdict read off the whole list: the down run at its front, or the answer that ended the
      last down run if every answer since is inside the window. */
  ghost function Judge(s: seq<Slot>, now: int, window: int): Verdict {
    if s == [] then Verdict(None, None)
    else if s[0].answeredAt.None? then
      var n := Front(s, true);
      Verdict(Some((s[n - 1].time, n)), None)
    else
      var n := Front(s, false);
      if n < |s| && forall i :: 0 <= i < n ==> now - s[i].answeredAt.value <= window
      then Verdict(None, s[n - 1].answeredAt) else Verdict(None, None)
  }

  lemma FrontIs(s: seq<Slot>, down: bool, n: nat)
    requires n <= |s| && (forall i :: 0 <= i < n ==> s[i].answeredAt.None? == down)
    requires n < |s| ==> s[n].answeredAt.None? != down
    ensures Front(s, down) == n
  {
  }

  /** The verdict of a list whose first n slots are down and no more. */
  lemma JudgeDown(s: seq<Slot>, n: nat, now: int, window: int)
    requires 1 <= n <= |s| && (forall i :: 0 <= i < n ==> s[i].answeredAt.None?)
    requires n < |s| ==> s[n].answeredAt.Some?
    ensures Judge(s, now, window) == Verdict(Some((s[n - 1].time, n)), None)
  {
    FrontIs(s, true, n);
  }

  /** The verdict of a list whose first n slots are answered, inside the window but for the last. */
  lemma JudgeAnswered(s: seq<Slot>, n: nat, now: int, window: int)
    requires 1 <= n <= |s| && (forall i :: 0 <= i < n ==> s[i].answeredAt.Some?)
    requires forall i :: 0 <= i < n - 1 ==> now - s[i].answeredAt.value <= window
    ensures now - s[n - 1].answeredAt.value > window ==> Judge(s, now, window) == Verdict(None, None)
    ensures now - s[n - 1].answeredAt.value <= window && n == |s| ==> Judge(s, now, window) == Verdict(None, None)
    ensures now - s[n - 1].answeredAt.value <= window && n < |s| && s[n].answeredAt.None? ==>
              Judge(s, now, window) == Verdict(None, s[n - 1].answeredAt)
  {
    assert Front(s, false) >= n;
    if n == |s| || s[n].answeredAt.None? { FrontIs(s, false, n); }
  }

  /** The down run at the front of the stream, its first slot already taken. */
  method DownRun(stream: SlotStream, latest: Slot, ghost all: seq<Slot>) returns (since: int, count: nat)
    requires stream.Valid() && all != [] && latest == all[0] && latest.answeredAt.None? && stream.Rest() == all[1..]
    modifies stream
    ensures 1 <= count <= |all| && since == all[count - 1].time
    ensures forall i :: 0 <= i < count ==> all[i].answeredAt.None?
    ensures count < |all| ==> all[count].answeredAt.Some?
  {
    since, count := latest.time, 1;
    while true
      invariant stream.Valid() && 1 <= count <= |all| && stream.Rest() == all[count..]
      invariant since == all[count - 1].time && forall i :: 0 <= i < count ==> all[i].answeredAt.None?
      decreases |all| - count
    {
      var slot := stream.Next();
      if slot.None? || slot.value.answeredAt.Some? { return; }
      since, count := slot.value.time, count + 1;
    }
  }

  /** Alert 7 for one site, over the lazy stream, agrees with the verdict on the whole list. */
  method ProviderDown(stream: SlotStream, now: int, window: int) returns (v: Verdict)
    requires stream.Valid()
    modifies stream
    ensures v == Judge(old(stream.Rest()), now, window)
  {
    hide Front;
    ghost var all := stream.Rest();
    var latest := stream.Next();
    if latest.None? { return Verdict(None, None); }
    if latest.value.answeredAt.None? {
      var since, down := DownRun(stream, latest.value, all);
      JudgeDown(all, down, now, window);
      return Verdict(Some((since, down)), None);
    }
    hide Judge;
    var recoveredAt := latest.value.answeredAt.value;
    ghost var count := 1;
    while now - recoveredAt <= window
      invariant stream.Valid() && 1 <= count <= |all| && stream.Rest() == all[count..]
      invariant all[count - 1].answeredAt == Some(recoveredAt)
      invariant forall i :: 0 <= i < count ==> all[i].answeredAt.Some?
      invariant forall i :: 0 <= i < count - 1 ==> now - all[i].answeredAt.value <= window
      decreases |all| - count
    {
      JudgeAnswered(all, count, now, window);
      var slot := stream.Next();
      if slot.None? { return Verdict(None, None); }
      if slot.value.answeredAt.None? { return Verdict(None, Some(recoveredAt)); }
      recoveredAt := slot.value.answeredAt.value;
      count := count + 1;
    }
    JudgeAnswered(all, count, now, window);
    v := Verdict(None, None);
  }

  const CLOSE_LOG_KEEP_DAYS := 90

  /** The days the walk may read: down from the current one, as many as the try log keeps. */
  function Retained(chain: seq<SiteDay>): seq<SiteDay> {
    if |chain| <= CLOSE_LOG_KEEP_DAYS + 1 then chain else chain[..CLOSE_LOG_KEEP_DAYS + 1]
  }

  /** The days a walk over the chain reads, each with its end and its slots. */
  ghost predicate DaysRead(days: seq<Day>, chain: seq<SiteDay>, step: int) {
    && |days| == (if |chain| <= 91 then |chain| else 91)
    && forall i :: 0 <= i < |days| ==>
         days[i].end == chain[i].end && SlotsOf(days[i].slots, chain[i], step)
  }

  ghost predicate SlotsOf(slots: seq<Slot>, day: SiteDay, step: int) {
    exists firsts :: SlotsAre(slots, firsts, day.tries, day.start, step)
  }

  lemma DaysReadAre(chain: seq<SiteDay>, step: int)
    requires step > 0
    ensures DaysRead(JudgedDays(Retained(chain), step), chain, step)
  {
    var kept := Retained(chain);
    var days := JudgedDays(kept, step);
    hide SlotsAre, SlotsOfDay;
    forall i | 0 <= i < |days| ensures days[i].end == chain[i].end && SlotsOf(days[i].slots, chain[i], step) {
      assert kept[i] == chain[i] && days[i].slots == SlotsOfDay(chain[i].tries, chain[i].start, step);
      SlotsOfDayAre(chain[i].tries, chain[i].start, step);
    }
  }

  /** Together, from the tries on: when every slot of a day read is earlier than the end of the day after,
      the alert computed lazily is the verdict on the full sorted list of the days' judged slots. */
  method ProviderDownOnDays(chain: seq<SiteDay>, step: int, now: int, window: int) returns (v: Verdict)
    requires step > 0 && InDayOrder(JudgedDays(Retained(chain), step))
    ensures v == Judge(NewestFirst(AllSlots(JudgedDays(Retained(chain), step))), now, window)
    ensures exists days :: DaysRead(days, chain, step) && v == Judge(NewestFirst(AllSlots(days)), now, window)
  {
    DaysReadAre(chain, step);
    hide DaysRead;
    var days := Retained(chain);
    var stream := new SlotStream(days, step);
    ghost var judged := JudgedDays(days, step);
    StreamIsSorted(judged, []);
    assert [] + AllSlots(judged) == AllSlots(judged);
    v := ProviderDown(stream, now, window);
  }
}
