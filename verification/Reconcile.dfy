/** Startup reconciliation: the normal form it drives the directory to. */
module Reconcile {
  import opened Common
  import opened StorageMachine

  predicate Stale(d: Dir, today: int) {
    d.base.Some? && d.base.value.mtimeDay < today
  }

  /** What reconciliation is for: a base of an earlier day becomes that day's archive, every orphan
      is in its archive, and no tmp partial and no orphan is left. */
  ghost function Normal(d: Dir, today: int): Dir {
    var archives := if Stale(d, today) then d.archives[Key(d.base.value.mtimeDay, DAILY) := Whole(d.base.value.lines)]
                    else d.archives;
    Dir(if Stale(d, today) then None else d.base,
        archives + (map k | k in d.raws && k !in archives :: Whole(d.raws[k])),
        map[], map[], d.others)
  }

  predicate IsReconcileEvent(e: Event) {
    e.Tick? || e.Crash? || e.Start? || e.BootBase? || e.BootTmp? || e.BootRaw?
  }

  /** The archive a key ends up with, if any. */
  ghost function FinalAt(d: Dir, today: int, k: Key): Option<Gz> {
    if Stale(d, today) && k == Key(d.base.value.mtimeDay, DAILY) then Some(Whole(d.base.value.lines))
    else if k in d.archives then Some(d.archives[k])
    else if k in d.raws then Some(Whole(d.raws[k]))
    else None
  }

  function Lookup(m: map<Key, Gz>, k: Key): Option<Gz> { if k in m then Some(m[k]) else None }

  lemma SameByKey(a: map<Key, Gz>, b: map<Key, Gz>)
    requires forall k :: Lookup(a, k) == Lookup(b, k)
    ensures a == b
  {
    forall k ensures k in a <==> k in b
             ensures k in a ==> a[k] == b[k]
    {
      assert Lookup(a, k) == Lookup(b, k);
    }
  }

  lemma NormalAt(d: Dir, today: int, k: Key)
    ensures Lookup(Normal(d, today).archives, k) == FinalAt(d, today, k)
  {
  }

  lemma NormalByKey(d: Dir, d': Dir, today: int)
    requires forall k :: FinalAt(d, today, k) == FinalAt(d', today, k)
    requires d.others == d'.others
    requires (if Stale(d, today) then None else d.base) == (if Stale(d', today) then None else d'.base)
    ensures Normal(d, today) == Normal(d', today)
  {
    var n, n' := Normal(d, today), Normal(d', today);
    assert n.others == n'.others && n.base == n'.base && n.raws == n'.raws && n.tmps == n'.tmps;
    hide Normal, FinalAt, Lookup;
    forall k ensures Lookup(n.archives, k) == Lookup(n'.archives, k) {
      NormalAt(d, today, k);
      NormalAt(d', today, k);
    }
    SameByKey(n.archives, n'.archives);
  }

  lemma BaseStepKeepsFinal(d: Dir, clock: int, stage: nat, today: int, k: Key)
    requires DirOk(d, clock) && Stale(d, clock) && clock <= today && stage <= 4
    ensures FinalAt(d, today, k) == FinalAt(Gzip(d, InBase, Key(d.base.value.mtimeDay, DAILY), stage), today, k)
  {
  }

  lemma RawStepKeepsFinal(d: Dir, clock: int, raw: Key, stage: nat, today: int, k: Key)
    requires DirOk(d, clock) && raw in d.raws && stage <= 4
    ensures FinalAt(d, today, k) == FinalAt(SettleRaw(d, raw, stage), today, k)
  {
  }

  lemma StepKeepsFinal(s: State, e: Event, today: int, k: Key)
    requires DirOk(s.dir, s.clock) && Enabled(s, e) && IsReconcileEvent(e) && s.clock <= today
    ensures FinalAt(s.dir, today, k) == FinalAt(Step(s, e).dir, today, k)
  {
    hide DirOk, Gzip, SettleRaw;
    match e
    case BootBase(stage) => BaseStepKeepsFinal(s.dir, s.clock, stage, today, k);
    case BootRaw(raw, stage) => RawStepKeepsFinal(s.dir, s.clock, raw, stage, today, k);
    case _ =>
  }

  lemma StepKeepsNormal(s: State, e: Event, today: int)
    requires DirOk(s.dir, s.clock) && Enabled(s, e) && IsReconcileEvent(e) && s.clock <= today
    ensures Normal(Step(s, e).dir, today) == Normal(s.dir, today)
  {
    var d, d' := s.dir, Step(s, e).dir;
    assert d.others == d'.others;
    assert (if Stale(d, today) then None else d.base) == (if Stale(d', today) then None else d'.base);
    hide *;
    forall k ensures FinalAt(d, today, k) == FinalAt(d', today, k) { StepKeepsFinal(s, e, today, k); }
    NormalByKey(d, d', today);
  }

  /** Every orphan's content is in its archive afterwards, and so is a stale base's. */
  lemma NormalHoldsEverything(d: Dir, clock: int, today: int)
    requires DirOk(d, clock)
    ensures var n := Normal(d, today);
            && n.raws == map[] && n.tmps == map[] && n.others == d.others
            && (forall k :: k in d.raws ==> k in n.archives && n.archives[k] == Whole(d.raws[k]))
            && (forall k :: k in d.archives ==> k in n.archives && n.archives[k] == d.archives[k])
            && (if Stale(d, today) then n.base.None?
                && n.archives[Key(d.base.value.mtimeDay, DAILY)] == Whole(d.base.value.lines)
                else n.base == d.base)
  {
  }

  lemma NormalIsFixed(d: Dir, today: int)
    ensures Normal(Normal(d, today), today) == Normal(d, today)
  {
    var n := Normal(d, today);
    assert Normal(n, today).archives == n.archives;
  }

  /** However often reconciliation is cut short by failures and crashes, what is left still has the
      normal form of the directory it first met: a later complete run reaches the same result. */
  lemma {:induction false} InterruptedRunsConverge(s: State, es: seq<Event>, today: int)
    requires Inv(s) && Legal(s, es) && SafeRun(s, es) && Run(s, es).clock <= today
    requires forall e :: e in es ==> IsReconcileEvent(e)
    ensures Normal(Run(s, es).dir, today) == Normal(s.dir, today)
    decreases |es|
  {
    if es != [] {
      var last := |es| - 1;
      InterruptedRunsConverge(s, es[..last], today);
      NoLineLost(s, es[..last]);
      StepKeepsNormal(Run(s, es[..last]), es[last], today);
    }
  }

  /** An orphan with a tmp partial of its own and no archive yet: gzipping the orphan renames that
      tmp away, and the listing, read before, still names it.  The unlink then fails and so does the
      start. */
  ghost predicate TripsOverOwnTmp(d: Dir) {
    exists k :: k in d.raws && k in d.tmps && k !in d.archives
  }

  lemma Trips(d: Dir, k: Key)
    requires k in d.raws && k in d.tmps && k !in d.archives
    ensures TripsOverOwnTmp(d)
  {
  }

  lemma TripsNot(d: Dir)
    requires forall k :: k in d.tmps ==> !(k in d.raws && k !in d.archives)
    ensures !TripsOverOwnTmp(d)
  {
  }

  /** Such a directory is what a start leaves when it dies while gzipping an orphan. */
  lemma InterruptedOrphanTrips(s: State, k: Key, stage: nat)
    requires Enabled(s, BootRaw(k, stage)) && 1 <= stage <= 2 && k !in s.dir.archives
    ensures TripsOverOwnTmp(Step(s, BootRaw(k, stage)).dir)
  {
    assert k in Step(s, BootRaw(k, stage)).dir.tmps;
  }

  // ---------------------------------------------------------------- the two passes

  /** The first pass: the stale base. */
  ghost function BaseSettled(d: Dir, today: int): Dir {
    if Stale(d, today) then Gzip(d, InBase, Key(d.base.value.mtimeDay, DAILY), 4) else d
  }

  /** The second pass over a listing of `was`, with these orphans and partials still ahead. */
  ghost predicate PartlySettled(was: Dir, d: Dir, raws: set<Key>, tmps: set<Key>) {
    && d.base == was.base && d.others == was.others
    && (forall k :: k in d.archives <==> k in was.archives || (k in was.raws && k !in raws))
    && (forall k :: k in d.archives ==>
          d.archives[k] == if k in was.archives then was.archives[k] else Whole(was.raws[k]))
    && (forall k :: k in d.raws <==> k in was.raws && k in raws)
    && (forall k :: k in d.raws ==> d.raws[k] == was.raws[k])
    && (forall k :: k in d.tmps <==> k in was.tmps && k in tmps && (k in was.raws && k !in was.archives ==> k in raws))
  }

  lemma RawSettled(was: Dir, d: Dir, raws: set<Key>, tmps: set<Key>, k: Key)
    requires PartlySettled(was, d, raws, tmps) && k in d.raws
    ensures PartlySettled(was, SettleRaw(d, k, 4), raws - {k}, tmps)
  {
  }

  lemma TmpSettled(was: Dir, d: Dir, raws: set<Key>, tmps: set<Key>, k: Key)
    requires PartlySettled(was, d, raws, tmps)
    ensures PartlySettled(was, d.(tmps := d.tmps - {k}), raws, tmps - {k})
  {
  }

  /** A listed partial is missing exactly when gzipping its own orphan has renamed it away. */
  lemma ListedButGone(was: Dir, d: Dir, raws: set<Key>, tmps: set<Key>)
    requires PartlySettled(was, d, raws, tmps) && raws <= was.raws.Keys && tmps <= was.tmps.Keys
    ensures forall k :: k in tmps && k !in raws ==> (k !in d.tmps <==> k in was.raws && k !in was.archives)
    ensures forall k :: k in raws ==> k in d.raws
  {
  }

  lemma PassesAt(d: Dir, d': Dir, today: int, k: Key)
    requires PartlySettled(BaseSettled(d, today), d', {}, {})
    ensures Lookup(d'.archives, k) == FinalAt(d, today, k)
  {
  }

  /** The two passes reach the normal form. */
  lemma PassesReachNormal(d: Dir, d': Dir, today: int)
    requires PartlySettled(BaseSettled(d, today), d', {}, {})
    ensures d' == Normal(d, today) && d'.raws == map[]
  {
    var n := Normal(d, today);
    assert d'.raws == map[] && d'.tmps == map[] && d'.others == n.others && d'.base == n.base;
    assert n.raws == map[] && n.tmps == map[];
    hide Normal, FinalAt, Lookup, PartlySettled;
    forall k ensures Lookup(d'.archives, k) == Lookup(n.archives, k) {
      PassesAt(d, d', today, k);
      NormalAt(d, today, k);
    }
    SameByKey(d'.archives, n.archives);
  }
}
