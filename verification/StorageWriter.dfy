/** The Writer class: every step it takes is an event of the storage machine, so every history it
    can produce, stopped anywhere by a failure or a crash, is a run the machine's theorems cover. */
module StorageWriter {
  import opened Common
  import opened StorageMachine
  import opened SpaceGuard
  import opened Reconcile

  const MB := 1024 * 1024

  datatype Reading = Reading(total: nat, free: nat)

  /** The successive measurements of the volume and, from the second on, the log directory: None when
      one of them fails; past the end every measurement fails. */
  type Readings = seq<Option<Reading>>

  function Read(volume: Readings, i: nat): Option<Reading> { if i < |volume| then volume[i] else None }

  /** Why the ring buffer stopped; the last three are a deletion whose unlink or whose directory fsync
      failed, and the death of the process. */
  datatype Verdict = Disabled | Unmeasured | Within | Exhausted | UnlinkFailed | SyncFailed | Died

  predicate IsFault(v: Verdict) { v.UnlinkFailed? || v.SyncFailed? || v.Died? }

  // ---------------------------------------------------------------- what success means

  function Expired(archives: map<Key, Gz>, now: int, keepDays: nat): set<Key> {
    set k | k in archives && now - k.day > keepDays
  }

  ghost function LinesIn(d: Dir, ks: set<Key>): set<Line> {
    set k, i | k in ks && 0 <= i < |At(d, InArchive(k))| :: At(d, InArchive(k))[i]
  }

  ghost function Without(s: State, gone: set<Key>): State {
    s.(dir := s.dir.(archives := s.dir.archives - gone), pruned := s.pruned + LinesIn(s.dir, gone))
  }

  ghost function Opened(s: State, day: int): State
    requires s.proc.Up?
  {
    s.(dir := TouchBase(s.dir, s.clock), proc := Up(day, Open([])))
  }

  function Waiting(h: Handle): seq<Line> { if h.Open? then h.buf else [] }

  /** A rollover: the base, with what its buffer held, becomes the archive of the open date. */
  ghost function DayRolled(s: State, now: int, keepDays: nat): State
    requires s.proc.Up?
  {
    if now == s.proc.openDate then s.(clock := now)
    else
      var flushed := AppendBase(s.dir, Waiting(s.proc.handle), now);
      var filed := if flushed.base.Some? then Gzip(flushed, InBase, Key(s.proc.openDate, DAILY), 4) else flushed;
      Opened(Without(s.(dir := filed, clock := now), Expired(filed.archives, now, keepDays)), now)
  }

  lemma DayRolledProc(s: State, now: int, keepDays: nat)
    requires s.proc.Up?
    ensures DayRolled(s, now, keepDays).proc == if now == s.proc.openDate then s.proc else Up(now, Open([]))
    ensures DayRolled(s, now, keepDays).clock == now
  {
  }

  /** A start: the normal form at `now`, less the archives expired at `later`, with the base open. */
  ghost function Booted(s: State, now: int, later: int, keepDays: nat): State
    requires s.proc.Booting?
  {
    var settled := s.(dir := Normal(s.dir, now), clock := later, proc := Up(s.proc.openDate, Closed));
    Opened(Without(settled, Expired(settled.dir.archives, later, keepDays)), s.proc.openDate)
  }

  /** A missing handle is reopened on the day of one more clock read. */
  ghost function Reopened(s: State, now: int): State
    requires s.proc.Up?
  {
    if s.proc.handle.Closed? then Opened(s.(clock := now), now) else s
  }

  /** The line, behind whatever the buffer still held, is in the base and accepted. */
  ghost function Stored(s: State, text: string, now: int): State
    requires s.proc.Up? && s.proc.handle.Open?
  {
    s.(dir := AppendBase(s.dir, Queue(s, text), now), proc := s.proc.(handle := Open([])), clock := now,
       next := s.next + 1, accepted := s.accepted + {Line(s.next, text)})
  }

  ghost function SizeRolled(s: State, n: int): State
    requires s.proc.Up?
  {
    Opened(s.(dir := Gzip(s.dir, InBase, Key(s.proc.openDate, n), 4)), s.proc.openDate)
  }

  // ---------------------------------------------------------------- what that leaves in the directory

  /** Retention keeps exactly the archives at most keepDays old. */
  lemma PrunedByAge(s: State, gone: set<Key>, now: int, keepDays: nat)
    requires gone <= Expired(s.dir.archives, now, keepDays)
    ensures var d := Without(s, gone).dir;
            && d == s.dir.(archives := d.archives)
            && (forall k :: k in d.archives ==> k in s.dir.archives && d.archives[k] == s.dir.archives[k])
            && (forall k :: k in s.dir.archives && k !in d.archives ==> now - k.day > keepDays)
    ensures gone == Expired(s.dir.archives, now, keepDays) ==>
              forall k :: k in Without(s, gone).dir.archives <==> k in s.dir.archives && now - k.day <= keepDays
  {
  }

  /** The archives a start at `now` leaves when it prunes at `later`: every archive, every orphan and a
      base of an earlier day as that day's archive, each of them within retention. */
  ghost predicate StartLeaves(was: Dir, now: int, later: int, keepDays: nat, archives: map<Key, Gz>) {
    && (forall k :: k in archives <==>
          && later - k.day <= keepDays
          && (k in was.archives || k in was.raws
              || (was.base.Some? && was.base.value.mtimeDay < now && k == Key(was.base.value.mtimeDay, DAILY))))
    && (forall k :: k in archives ==>
          archives[k] ==
          if was.base.Some? && was.base.value.mtimeDay < now && k == Key(was.base.value.mtimeDay, DAILY)
          then Whole(was.base.value.lines) else if k in was.archives then was.archives[k] else Whole(was.raws[k]))
  }

  lemma BootedMeans(s: State, now: int, later: int, keepDays: nat)
    requires s.proc.Booting?
    ensures var d := Booted(s, now, later, keepDays).dir;
            && StartLeaves(s.dir, now, later, keepDays, d.archives)
            && d.raws == map[] && d.tmps == map[] && d.others == s.dir.others
            && d.base == if s.dir.base.Some? && s.dir.base.value.mtimeDay >= now then s.dir.base
                         else Some(Text([], later))
  {
    var settled := s.(dir := Normal(s.dir, now), clock := later, proc := Up(s.proc.openDate, Closed));
    PrunedByAge(settled, Expired(settled.dir.archives, later, keepDays), later, keepDays);
  }

  /** The archives a rotation at `now` leaves: all of them on the open date; on another one those within
      retention, with the base and then its buffer as the archive of the open date. */
  ghost predicate RotationLeaves(was: Dir, h: Handle, openDate: int, now: int, keepDays: nat, archives: map<Key, Gz>) {
    if now == openDate then archives == was.archives
    else
      && (forall k :: k in archives <==>
            now - k.day <= keepDays && (k in was.archives || (was.base.Some? && k == Key(openDate, DAILY))))
      && (forall k :: k in archives ==>
            archives[k] ==
            if was.base.Some? && k == Key(openDate, DAILY)
            then Whole(was.base.value.lines + if h.Open? then h.buf else []) else was.archives[k])
  }

  lemma DayRolledMeans(s: State, now: int, keepDays: nat)
    requires s.proc.Up? && (s.proc.handle.Open? ==> s.dir.base.Some?)
    ensures var d := DayRolled(s, now, keepDays).dir;
            && RotationLeaves(s.dir, s.proc.handle, s.proc.openDate, now, keepDays, d.archives)
            && d.base == if now == s.proc.openDate then s.dir.base else Some(Text([], now))
  {
    if now != s.proc.openDate {
      var flushed := AppendBase(s.dir, Waiting(s.proc.handle), now);
      assert flushed.archives == s.dir.archives && flushed.base.Some? == s.dir.base.Some?;
      assert flushed.base.Some? ==> flushed.base.value.lines == s.dir.base.value.lines + Waiting(s.proc.handle);
      var filed := if flushed.base.Some? then Gzip(flushed, InBase, Key(s.proc.openDate, DAILY), 4) else flushed;
      var rolled := s.(dir := filed, clock := now);
      PrunedByAge(rolled, Expired(filed.archives, now, keepDays), now, keepDays);
    }
  }

  /** What the base holds behind the rotation, before the new line. */
  ghost function Resumed(was: Dir, h: Handle, openDate: int, now: int): seq<Line> {
    if now != openDate then []
    else (if was.base.Some? then was.base.value.lines else []) + (if h.Open? then h.buf else [])
  }

  lemma StoredMeans(s: State, text: string, now: int, reopen: int, stamp: int, keepDays: nat)
    requires s.proc.Up? && (s.proc.handle.Open? ==> s.dir.base.Some?)
    requires Reopened(DayRolled(s, now, keepDays), reopen).proc.handle.Open?
    ensures var a := Stored(Reopened(DayRolled(s, now, keepDays), reopen), text, stamp);
            && RotationLeaves(s.dir, s.proc.handle, s.proc.openDate, now, keepDays, a.dir.archives)
            && a.dir.base == Some(Text(Resumed(s.dir, s.proc.handle, s.proc.openDate, now)
                                       + [Line(s.next, text)], stamp))
            && a.proc == Up(if now == s.proc.openDate && s.proc.handle.Closed? then reopen else now, Open([]))
  {
    DayRolledMeans(s, now, keepDays);
    DayRolledProc(s, now, keepDays);
    var r := DayRolled(s, now, keepDays);
    assert r.next == s.next;
    hide DayRolled, RotationLeaves;
    var q := Reopened(r, reopen);
    assert At(q.dir, InBase) == At(r.dir, InBase);
    var held := if now == s.proc.openDate && s.proc.handle.Open? then s.proc.handle.buf else [];
    assert q.proc.handle.buf == held && Queue(q, text) == held + [Line(s.next, text)];
    assert At(r.dir, InBase) + (held + [Line(s.next, text)]) == (At(r.dir, InBase) + held) + [Line(s.next, text)];
    assert At(r.dir, InBase) + held == Resumed(s.dir, s.proc.handle, s.proc.openDate, now);
  }

  lemma LinesInGrows(d: Dir, ks: set<Key>, k: Key)
    ensures LinesIn(d, ks + {k}) == LinesIn(d, ks) + set l | l in At(d, InArchive(k))
  {
    forall l | l in At(d, InArchive(k)) ensures l in LinesIn(d, ks + {k}) {
      var i :| 0 <= i < |At(d, InArchive(k))| && At(d, InArchive(k))[i] == l;
    }
  }

  lemma PruneOneMore(s: State, gone: set<Key>, k: Key)
    requires k in s.dir.archives && k !in gone && Enabled(Without(s, gone), Prune(k))
    ensures Step(Without(s, gone), Prune(k)) == Without(s, gone + {k})
  {
    LinesInGrows(s.dir, gone, k);
    assert At(Without(s, gone).dir, InArchive(k)) == At(s.dir, InArchive(k));
  }

  /** The ring buffer's settings. */
  datatype Guard = Guard(minFree: nat, maxLog: nat, sizes: Sizes)

  /** What the readings say on turn j, with the j oldest archives gone. */
  ghost predicate Measured(g: Guard, volume: Readings, was: Dir, j: nat, over: bool) {
    && Read(volume, 0).Some? && Read(volume, j + 1).Some?
    && over == OverBudget(g.minFree, g.maxLog, Read(volume, 0).value.total, Read(volume, j + 1).value.free,
                          DirBytes(Dropped(was, j), g.sizes))
  }

  /** From s, exactly the n oldest archives are gone and nothing else has changed. */
  ghost predicate OldestDropped(s: State, now: State, n: nat) {
    && n <= |s.dir.archives.Keys|
    && now == Without(s, Victims(s.dir.archives.Keys, n))
    && now.dir == Dropped(s.dir, n)
  }

  /** The counters gained m deletions and their bytes. */
  ghost predicate Counted(g: Guard, was: Dir, m: int, prunes: int, bytes: int) {
    m >= 0 && prunes == m && bytes == DirBytes(was, g.sizes) - DirBytes(Dropped(was, m), g.sizes)
  }

  /** n deletions, each made while over budget, counted with their bytes. */
  ghost predicate Pruning(g: Guard, volume: Readings, s: State, now: State, n: nat, prunes: int, bytes: int) {
    && OldestDropped(s, now, n)
    && (forall j :: 0 <= j < n ==> Measured(g, volume, s.dir, j, true))
    && Counted(g, s.dir, n, prunes, bytes)
  }

  /** How one call of the ring buffer ends: exactly the n oldest archives are gone, each deleted while
      over budget, and it stopped because the limits hold, because no archive is left, or because a
      step failed.  The counters gain every deletion and its bytes, but for a last one whose directory
      fsync failed or did not come about. */
  ghost predicate Enforced(g: Guard, volume: Readings, s: State, now: State, n: nat, prunes: int, bytes: int,
                           verdict: Verdict) {
    && OldestDropped(s, now, n)
    && (forall j :: 0 <= j < n ==> Measured(g, volume, s.dir, j, true))
    && (verdict.Disabled? <==> g.minFree == 0 && g.maxLog == 0)
    && (verdict.Unmeasured? ==> Read(volume, 0).None? || Read(volume, n + 1).None?)
    && (verdict.Within? ==> Measured(g, volume, s.dir, n, false))
    && (verdict.Exhausted? ==> now.dir.archives == map[] && Measured(g, volume, s.dir, n, true))
    && (verdict.UnlinkFailed? ==> Measured(g, volume, s.dir, n, true))
    && (if verdict.SyncFailed? then Counted(g, s.dir, n - 1, prunes, bytes)
        else Counted(g, s.dir, n, prunes, bytes)
             || (verdict.Died? && Counted(g, s.dir, n - 1, prunes, bytes)))
  }

  /** While the process lives, the counters equal the deletions exactly when the last one's fsync did not
      fail. */
  lemma CountedUnlessUnsynced(g: Guard, volume: Readings, s: State, now: State, n: nat, prunes: int, bytes: int,
                              verdict: Verdict)
    requires Enforced(g, volume, s, now, n, prunes, bytes, verdict) && !verdict.Died?
    ensures Counted(g, s.dir, n, prunes, bytes) <==> !verdict.SyncFailed?
    ensures prunes == n <==> !verdict.SyncFailed?
  {
  }

  /** Once no archive is left, all are gone. */
  lemma NoneLeft(s: State, now: State, n: nat)
    requires OldestDropped(s, now, n) && now.dir.archives == map[]
    ensures n == |s.dir.archives.Keys|
  {
    var ks := s.dir.archives.Keys;
    VictimsArePrefix(ks, n);
    assert Victims(ks, n) == ks by {
      forall k | k in ks ensures k in Victims(ks, n) {
        assert k in Victims(ks, n) || k in Dropped(s.dir, n).archives;
      }
    }
  }

  /** Unless a deletion fails, the readings alone decide how many archives go and why it stops. */
  lemma EnforcedIsDetermined(g: Guard, volume: Readings, s: State, a: State, n: nat, prunes: int, bytes: int,
                             verdict: Verdict, a': State, n': nat, prunes': int, bytes': int, verdict': Verdict)
    requires Enforced(g, volume, s, a, n, prunes, bytes, verdict)
    requires Enforced(g, volume, s, a', n', prunes', bytes', verdict')
    requires !IsFault(verdict) && !IsFault(verdict') && n <= n'
    ensures n == n' && a == a' && prunes == prunes' && bytes == bytes' && verdict == verdict'
  {
    if verdict.Exhausted? { NoneLeft(s, a, n); }
    assert n' <= |s.dir.archives.Keys| && a == Without(s, Victims(s.dir.archives.Keys, n));
    assert a' == Without(s, Victims(s.dir.archives.Keys, n'));
    hide OldestDropped, Without, OverBudget, DirBytes, Dropped, Victims;
    assert n < n' ==> Measured(g, volume, s.dir, n, true);
    if verdict.Disabled? { NothingReadNothingPruned(g, volume, s.dir, n); }
    assert n == n';
  }

  /** Exactly n archives are gone, and none that is left is older than one of them or is the daily archive
      of a day one of whose segments is gone. */
  ghost predicate OldestGone(was: Dir, d: Dir, n: nat) {
    && d == was.(archives := d.archives)
    && (forall k :: k in d.archives ==> k in was.archives && d.archives[k] == was.archives[k])
    && |was.archives.Keys| == |d.archives.Keys| + n
    && NoneLeftOlder(was.archives.Keys - d.archives.Keys, d.archives.Keys)
  }

  lemma DroppedMeans(s: State, now: State, n: nat)
    requires OldestDropped(s, now, n)
    ensures OldestGone(s.dir, now.dir, n)
  {
    var was, d := s.dir, now.dir;
    assert d == was.(archives := d.archives);
    assert d.archives == was.archives - Victims(was.archives.Keys, n);
    VictimsAreOldest(was.archives.Keys, n);
    LessMeans(was.archives, d.archives, Victims(was.archives.Keys, n));
    hide *;
    assert OldestGone(was, d, n) by { OldestGoneIf(was, d, n); }
  }

  lemma OldestGoneIf(was: Dir, d: Dir, n: nat)
    requires d == was.(archives := d.archives)
    requires forall k :: k in d.archives ==> k in was.archives && d.archives[k] == was.archives[k]
    requires |was.archives.Keys| == |d.archives.Keys| + n
    requires NoneLeftOlder(was.archives.Keys - d.archives.Keys, d.archives.Keys)
    ensures OldestGone(was, d, n)
  {
    hide NoneLeftOlder;
  }

  lemma LessMeans(was: map<Key, Gz>, now: map<Key, Gz>, gone: set<Key>)
    requires now == was - gone && gone <= was.Keys
    ensures now.Keys == was.Keys - gone && was.Keys - now.Keys == gone && |was.Keys| == |now.Keys| + |gone|
    ensures forall k :: k in now ==> k in was && now[k] == was[k]
  {
    assert now.Keys == was.Keys - gone;
    KeysLeft(was.Keys, gone);
  }

  lemma KeysLeft(was: set<Key>, gone: set<Key>)
    requires gone <= was
    ensures was - (was - gone) == gone && |was| == |was - gone| + |gone|
  {
    assert was == gone + (was - gone);
  }

  ghost predicate NotRead(volume: Readings, i: nat) { i >= |volume| || volume[i].None? }

  /** By the readings of turn j, with the j oldest archives gone, both percentages hold. */
  ghost predicate HoldsAt(g: Guard, volume: Readings, was: Dir, j: nat) {
    && j + 1 < |volume| && volume[0].Some? && volume[j + 1].Some?
    && LimitsHold(g.minFree, g.maxLog, volume[0].value.total, volume[j + 1].value.free,
                  DirBytes(Dropped(was, j), g.sizes))
  }

  lemma MeasuredMeans(g: Guard, volume: Readings, was: Dir, j: nat, over: bool)
    requires Measured(g, volume, was, j, over)
    ensures !over <==> HoldsAt(g, volume, was, j)
  {
    hide DirBytes, LimitsHold, OverBudget;
    OverBudgetMeans(g.minFree, g.maxLog, Read(volume, 0).value.total, Read(volume, j + 1).value.free,
                    DirBytes(Dropped(was, j), g.sizes));
  }

  /** A call deletes only while the limits do not hold, and says that they do only when they do. */
  lemma EnforcedMeans(g: Guard, volume: Readings, s: State, now: State, n: nat, prunes: int, bytes: int,
                      verdict: Verdict)
    requires Enforced(g, volume, s, now, n, prunes, bytes, verdict)
    ensures forall j :: 0 <= j < n ==> !HoldsAt(g, volume, s.dir, j)
    ensures verdict.Within? ==> HoldsAt(g, volume, s.dir, n) && now.dir == Dropped(s.dir, n)
  {
    assert now.dir == Dropped(s.dir, n);
    hide Measured, HoldsAt, Dropped, OldestDropped, Counted;
    forall j | 0 <= j < n ensures !HoldsAt(g, volume, s.dir, j) { MeasuredMeans(g, volume, s.dir, j, true); }
    if verdict.Within? { MeasuredMeans(g, volume, s.dir, n, false); }
  }

  lemma NothingReadNothingPruned(g: Guard, volume: Readings, was: Dir, j: nat)
    requires g.minFree == 0 && g.maxLog == 0
    ensures !Measured(g, volume, was, j, true)
  {
  }

  lemma NothingPruned(g: Guard, volume: Readings, s: State)
    ensures Pruning(g, volume, s, s, 0, 0, 0)
  {
    assert s.dir.archives - {} == s.dir.archives;
  }

  /** Stopping on this turn: nothing more is deleted. */
  lemma StopHere(g: Guard, volume: Readings, s: State, now: State, n: nat, prunes: int, bytes: int, verdict: Verdict)
    requires Pruning(g, volume, s, now, n, prunes, bytes)
    requires verdict.Disabled? <==> g.minFree == 0 && g.maxLog == 0
    requires verdict.Unmeasured? ==> Read(volume, 0).None? || Read(volume, n + 1).None?
    requires verdict.Within? ==> Measured(g, volume, s.dir, n, false)
    requires verdict.Exhausted? ==> now.dir.archives == map[] && Measured(g, volume, s.dir, n, true)
    requires verdict.UnlinkFailed? ==> Measured(g, volume, s.dir, n, true)
    requires !verdict.SyncFailed?
    ensures Enforced(g, volume, s, now, n, prunes, bytes, verdict)
  {
  }

  lemma TurnMeasured(g: Guard, volume: Readings, s: State, now: State, n: nat, prunes: int, bytes: int, weight: nat)
    requires Pruning(g, volume, s, now, n, prunes, bytes) && weight == DirBytes(now.dir, g.sizes)
    requires Read(volume, 0).Some? && Read(volume, n + 1).Some?
    ensures Measured(g, volume, s.dir, n,
              OverBudget(g.minFree, g.maxLog, Read(volume, 0).value.total, Read(volume, n + 1).value.free, weight))
  {
  }

  lemma DropOne(s: State, now: State, n: nat, k: Key, sizes: Sizes)
    requires s.proc.Up? && OldestDropped(s, now, n) && IsOldest(now.dir.archives.Keys, k)
    ensures k in now.dir.archives && Enabled(now, Prune(k)) && n < |s.dir.archives.Keys|
    ensures OldestDropped(s, Step(now, Prune(k)), n + 1)
    ensures now.dir == Dropped(s.dir, n) && Step(now, Prune(k)).dir == Dropped(s.dir, n + 1)
    ensures DirBytes(now.dir, sizes) == sizes.gz(now.dir.archives[k]) + DirBytes(Step(now, Prune(k)).dir, sizes)
  {
    var ks := s.dir.archives.Keys;
    assert Dropped(s.dir, n).archives.Keys == ks - Victims(ks, n);
    VictimsArePrefix(ks, n);
    if n >= |ks| { SubsetSameSize(Victims(ks, n), ks); }
    NextVictim(ks, n, k);
    PruneOneMore(s, Victims(ks, n), k);
    DropNext(s.dir, n, k);
    PruneFrees(now.dir, sizes, k);
  }

  /** Deleting one more: counted when its fsync works, the end of the call when it does not. */
  lemma PruneOneVictim(g: Guard, volume: Readings, s: State, now: State, n: nat, prunes: int, bytes: int, k: Key)
    requires s.proc.Up? && Pruning(g, volume, s, now, n, prunes, bytes) && IsOldest(now.dir.archives.Keys, k)
    requires Measured(g, volume, s.dir, n, true) && (g.minFree > 0 || g.maxLog > 0)
    ensures k in now.dir.archives && Enabled(now, Prune(k)) && n < |s.dir.archives.Keys|
    ensures Pruning(g, volume, s, Step(now, Prune(k)), n + 1, prunes + 1, bytes + g.sizes.gz(now.dir.archives[k]))
    ensures Enforced(g, volume, s, Step(now, Prune(k)), n + 1, prunes, bytes, SyncFailed)
    ensures Enforced(g, volume, s, Step(now, Prune(k)), n + 1, prunes, bytes, Died)
  {
    hide OldestDropped, Measured, IsOldest, Step, DirBytes;
    DropOne(s, now, n, k, g.sizes);
  }

  lemma OpensNewDay(s: State, day: int)
    requires s.proc.Up? && s.proc.handle.Closed? && s.proc.openDate < day == s.clock
    ensures Enabled(s, OpenAt(day))
  {
  }

  lemma NextSeqUnique(archives: map<Key, Gz>, day: int, m: int, n: int)
    requires IsNextSeq(archives, day, m) && IsNextSeq(archives, day, n)
    ensures m == n
  {
    assert n == 1 || Key(day, n - 1) in archives;
    assert m == 1 || Key(day, m - 1) in archives;
  }

  /** The base has reached the threshold and a segment number is left for its day. */
  ghost predicate RollDue(s: State, maxSegmentMb: nat, sizes: Sizes)
    requires s.proc.Up?
  {
    && maxSegmentMb > 0 && sizes.text(At(s.dir, InBase)) >= maxSegmentMb * MB
    && exists n :: IsNextSeq(s.dir.archives, s.proc.openDate, n) && n <= MAX_SEQ
  }

  /** What the counters gained. */
  datatype Gain = Gain(rotations: int, prunes: int, bytes: int)

  /** How the size step after a write ends: a roll to the next segment when one is due, and then the
      ring buffer; nothing at all otherwise. */
  ghost predicate SizeStepped(g: Guard, volume: Readings, maxSegmentMb: nat, s: State, now: State,
                              rolled: Option<int>, n: nat, verdict: Verdict, gain: Gain)
    requires s.proc.Up?
  {
    && (rolled.Some? <==> RollDue(s, maxSegmentMb, g.sizes))
    && (rolled.None? ==> now == s && gain == Gain(0, 0, 0))
    && (rolled.Some? ==>
          && IsNextSeq(s.dir.archives, s.proc.openDate, rolled.value) && rolled.value <= MAX_SEQ
          && gain.rotations == 1 && !verdict.Died?
          && Enforced(g, volume, SizeRolled(s, rolled.value), now, n, gain.prunes, gain.bytes, verdict))
  }

  lemma NotDue(s: State, maxSegmentMb: nat, sizes: Sizes, n: int)
    requires s.proc.Up? && IsNextSeq(s.dir.archives, s.proc.openDate, n) && n > MAX_SEQ
    ensures !RollDue(s, maxSegmentMb, sizes)
  {
    forall m | IsNextSeq(s.dir.archives, s.proc.openDate, m) ensures m == n {
      NextSeqUnique(s.dir.archives, s.proc.openDate, m, n);
    }
  }

  /** The directory after the size step over a base that holds `lines`.  Below the threshold, or with no
      number left for the day, it is unchanged; otherwise the base is that day's next segment, a new base is
      open, and the n oldest of all archives, this one included, are gone. */
  ghost predicate StepLeaves(was: Dir, lines: seq<Line>, day: int, clock: int, maxSegmentMb: nat, sizes: Sizes,
                             rolled: Option<int>, n: nat, d: Dir) {
    if rolled.None? then
      && d == was
      && (maxSegmentMb == 0 || sizes.text(lines) < maxSegmentMb * 1048576
          || forall m :: IsNextSeq(was.archives, day, m) ==> m > 999)
    else
      var k := Key(day, rolled.value);
      && maxSegmentMb > 0 && sizes.text(lines) >= maxSegmentMb * 1048576
      && IsNextSeq(was.archives, day, rolled.value) && rolled.value <= 999
      && OldestGone(Dir(Some(Text([], clock)), was.archives[k := Whole(lines)], was.raws, was.tmps - {k},
                        was.others), d, n)
  }

  lemma SizeSteppedMeans(g: Guard, volume: Readings, maxSegmentMb: nat, s: State, now: State,
                         rolled: Option<int>, n: nat, verdict: Verdict, gain: Gain)
    requires s.proc.Up? && s.dir.base.Some?
    requires SizeStepped(g, volume, maxSegmentMb, s, now, rolled, n, verdict, gain)
    ensures StepLeaves(s.dir, s.dir.base.value.lines, s.proc.openDate, s.clock, maxSegmentMb, g.sizes,
                       rolled, n, now.dir)
  {
    hide OldestGone, OldestDropped;
    if rolled.Some? {
      var k := Key(s.proc.openDate, rolled.value);
      assert SizeRolled(s, rolled.value).dir
          == Dir(Some(Text([], s.clock)), s.dir.archives[k := Whole(s.dir.base.value.lines)], s.dir.raws,
                 s.dir.tmps - {k}, s.dir.others);
      DroppedMeans(SizeRolled(s, rolled.value), now, n);
    }
  }

  /** The directory after a successful write: behind the rotation `line` is the last of the base, or, when
      the base has been rolled, of its segment. */
  ghost predicate WriteLeaves(was: Dir, h: Handle, openDate: int, now: int, keepDays: nat, line: Line,
                              day: int, stamp: int, maxSegmentMb: nat, sizes: Sizes,
                              rolled: Option<int>, n: nat, d: Dir) {
    var lines := Resumed(was, h, openDate, now) + [line];
    exists mid: Dir ::
      && RotationLeaves(was, h, openDate, now, keepDays, mid.archives) && mid.base == Some(Text(lines, stamp))
      && StepLeaves(mid, lines, day, stamp, maxSegmentMb, sizes, rolled, n, d)
  }

  lemma WriteLeavesIf(was: Dir, h: Handle, openDate: int, now: int, keepDays: nat, line: Line,
                      day: int, stamp: int, maxSegmentMb: nat, sizes: Sizes,
                      rolled: Option<int>, n: nat, mid: Dir, d: Dir)
    requires RotationLeaves(was, h, openDate, now, keepDays, mid.archives)
    requires mid.base == Some(Text(Resumed(was, h, openDate, now) + [line], stamp))
    requires StepLeaves(mid, mid.base.value.lines, day, stamp, maxSegmentMb, sizes, rolled, n, d)
    ensures WriteLeaves(was, h, openDate, now, keepDays, line, day, stamp, maxSegmentMb, sizes, rolled, n, d)
  {
    hide RotationLeaves, StepLeaves, Resumed;
  }

  // ---------------------------------------------------------------- the writer

  /** A step fails exactly when a system call of it did. */
  predicate Reported(was: nat, now: nat, o: Outcome) { was <= now && (o.Done? <==> now == was) }

  class Writer {
    const keepDays: nat
    const minFree: nat
    const maxLog: nat
    const maxSegmentMb: nat
    const sizes: Sizes

    var dir: Dir
    var booted: bool
    var openDate: int
    var handle: Handle
    var clock: int
    var next: nat
    var sizeRotations: nat
    var spacePrunes: nat
    var bytesReclaimed: nat

    ghost var accepted: set<Line>
    ghost var pruned: set<Line>
    ghost const origin: State
    ghost var history: seq<Event>
    ghost var faults: nat          // system calls that raised or killed the process

    ghost function Sys(): State
      reads `dir, `booted, `openDate, `handle, `clock, `next, `accepted, `pruned
    {
      State(dir, if booted then Up(openDate, handle) else Booting(openDate), clock, next, accepted, pruned)
    }

    /** The writer's state is where its history leads from a sound origin. */
    ghost predicate Valid()
      reads `dir, `booted, `openDate, `handle, `clock, `next, `accepted, `pruned, `history
    {
      Inv(origin) && Legal(origin, history) && Sys() == Run(origin, history)
    }

    /** Its start did not straddle midnight over a base of its own open date. */
    ghost predicate Safely()
      reads `history
    {
      Legal(origin, history) && SafeRun(origin, history)
    }

    /** So nothing accepted is ever lost but to a prune, whatever happened so far. */
    lemma Sound()
      requires Valid() && Safely()
      ensures Inv(Sys()) && Conserved(Sys())
    {
      NoLineLost(origin, history);
    }

    /** The process starts on a directory some earlier run left, and reads its open date. */
    constructor (s: State, keepDays: nat, minFree: nat, maxLog: nat, maxSegmentMb: nat, sizes: Sizes)
      requires Inv(s) && s.proc.Down?
      ensures Valid() && Safely() && !booted && history == [Start] && origin == s && Sys() == Step(s, Start)
      ensures sizeRotations == spacePrunes == bytesReclaimed == 0
    {
      this.keepDays, this.minFree, this.maxLog, this.maxSegmentMb, this.sizes :=
          keepDays, minFree, maxLog, maxSegmentMb, sizes;
      dir, booted, openDate, handle, clock, next := s.dir, false, s.clock, Closed, s.clock, s.next;
      sizeRotations, spacePrunes, bytesReclaimed, faults := 0, 0, 0, 0;
      accepted, pruned, origin, history := s.accepted, s.pruned, s, [Start];
      new;
      assert [Start][..0] == [];
    }

    /** What the methods rely on, whatever the start was. */
    lemma Facts()
      requires Valid() && booted
      ensures openDate <= clock && dir.raws == map[]
      ensures handle.Open? ==> dir.base.Some?
      ensures Key(clock, DAILY) !in dir.archives
      ensures forall l :: l in accepted ==> l.id < next
    {
      AlwaysFramed(origin, history);
    }

    /** Each fallible system call may work, raise, or be where the process dies. */
    method Try() returns (o: Outcome)
      modifies `faults
      ensures faults == old(faults) + if o.Done? then 0 else 1
    {
      o := *;
      if !o.Done? { faults := faults + 1; }
    }

    /** How many of the queued lines reach the file: all unless the call fails. */
    method Deliver(queued: nat) returns (o: Outcome, landed: nat)
      modifies `faults
      ensures Reported(old(faults), faults, o) && landed <= queued && (o.Done? ==> landed == queued)
    {
      o := Try();
      var many: int := *;
      landed := if o.Done? || many < 0 || queued < many then queued else many;
    }

    ghost method Record(s: State, e: Event)
      requires Inv(origin) && Legal(origin, history) && Run(origin, history) == s
      requires Enabled(s, e) && Sys() == Step(s, e)
      modifies `history
      ensures Valid() && history == old(history) + [e]
      ensures Safely() <==> old(Safely()) && Safe(s, e)
    {
      RunSnoc(origin, history, e);
      assert (history + [e])[..|history|] == history;
      history := history + [e];
    }

    method ReadClock(now: int)
      requires Valid() && clock <= now
      modifies `clock, `history
      ensures Valid() && clock == now && history == old(history) + [Tick(now)] && Safely() == old(Safely())
    {
      ghost var s := Sys();
      clock := now;
      Record(s, Tick(now));
    }

    // -------------------------------------------------------------- files

    /** The shared atomic gzip: it stops after any of its stages, and at stage 4 only when done. */
    method AtomicGzip(src: Place, k: Key) returns (o: Outcome, ghost stage: nat)
      modifies `dir, `faults
      ensures stage <= 4 && dir == Gzip(old(dir), src, k, stage)
      ensures o.Done? ==> stage == 4
      ensures Reported(old(faults), faults, o)
    {
      ghost var was := dir;
      var lines := At(dir, src);
      o := Try();
      if !o.Done? { return o, 0; }
      dir := dir.(tmps := dir.tmps[k := Cut]);
      o := Try();                                 // copy and close
      if !o.Done? { return o, 1; }
      dir := dir.(tmps := dir.tmps[k := Whole(lines)]);
      assert dir == Gzip(was, src, k, 2);
      o := Try();                                 // fsync the tmp
      if !o.Done? { return o, 2; }
      o := Try();                                 // replace
      if !o.Done? { return o, 2; }
      dir := dir.(archives := dir.archives[k := dir.tmps[k]], tmps := dir.tmps - {k});
      assert dir.tmps == was.tmps - {k};
      o := Try();                                 // fsync the directory
      if !o.Done? { return o, 3; }
      o := Try();                                 // unlink the source
      if !o.Done? { return o, 3; }
      dir := Unlink(dir, src);
      o := Try();                                 // fsync the directory
      stage := 4;
    }

    /** Gzip the base into a daily archive or a numbered segment of the open date. */
    method CompressBase(k: Key) returns (o: Outcome)
      requires Valid() && booted && Enabled(Sys(), GzipBase(k, 4))
      modifies `dir, `history, `faults
      ensures Valid() && old(history) <= history && Safely() == old(Safely())
      ensures o.Done? ==> dir == Gzip(old(dir), InBase, k, 4)
      ensures Reported(old(faults), faults, o)
    {
      ghost var s := Sys();
      ghost var stage;
      o, stage := AtomicGzip(InBase, k);
      Record(s, GzipBase(k, stage));
    }

    /** close() flushes the buffer; when it raises, part of it may have reached the file. */
    method CloseHandle() returns (o: Outcome)
      requires Valid() && booted
      modifies `dir, `handle, `history, `faults
      ensures Valid() && old(history) <= history && Safely() == old(Safely())
      ensures o.Done? ==> handle.Closed? && dir == AppendBase(old(dir), Waiting(old(handle)), clock)
      ensures !o.Done? ==> handle.Broken?
      ensures Reported(old(faults), faults, o)
    {
      ghost var s := Sys();
      if !handle.Open? {
        handle := Closed;
        Record(s, Close(0, false));
        return Done;
      }
      hide Legal, Run, SafeRun, Inv, Safely;
      var landed;
      o, landed := Deliver(|handle.buf|);
      dir := AppendBase(dir, handle.buf[..landed], clock);
      assert handle.buf[..|handle.buf|] == handle.buf;
      handle := if o.Done? then Closed else Broken;
      Record(s, Close(landed, !o.Done?));
    }

    method OpenBase(day: int) returns (o: Outcome)
      requires Valid() && booted && Enabled(Sys(), OpenAt(day))
      modifies `dir, `handle, `openDate, `history, `faults
      ensures Valid() && old(history) <= history && Safely() == old(Safely())
      ensures if o.Done? then Sys() == Opened(old(Sys()), day) else Sys() == old(Sys())
      ensures Reported(old(faults), faults, o)
    {
      o := Try();
      if !o.Done? { return; }
      ghost var s := Sys();
      dir, handle, openDate := TouchBase(dir, clock), Open([]), day;
      Record(s, OpenAt(day));
    }

    /** Unlink one archive; its lines leave the store on purpose. */
    method DeleteArchive(k: Key)
      requires Valid() && k in dir.archives
      modifies `dir, `pruned, `history
      ensures Valid() && old(history) <= history && Safely() == old(Safely()) && dir == Unlink(old(dir), InArchive(k))
      ensures Sys() == Step(old(Sys()), Prune(k))
    {
      ghost var s := Sys();
      pruned := pruned + set l | l in At(dir, InArchive(k));
      dir := Unlink(dir, InArchive(k));
      Record(s, Prune(k));
    }

    /** Delete every archive whose embedded date is beyond retention. */
    method PruneExpired() returns (o: Outcome)
      requires Valid()
      modifies `dir, `pruned, `history, `faults
      ensures Valid() && old(history) <= history && Safely() == old(Safely())
      ensures o.Done? ==> Sys() == Without(old(Sys()), Expired(old(dir).archives, clock, keepDays))
      ensures exists gone :: gone <= Expired(old(dir).archives, clock, keepDays) && Sys() == Without(old(Sys()), gone)
      ensures Reported(old(faults), faults, o)
      // in dates
      ensures o.Done? ==> forall k :: k in dir.archives <==> k in old(dir).archives && clock - k.day <= keepDays
      ensures forall k :: k in old(dir).archives && k !in dir.archives ==> clock - k.day > keepDays
      ensures dir == old(dir).(archives := dir.archives)
      ensures forall k :: k in dir.archives ==> k in old(dir).archives && dir.archives[k] == old(dir).archives[k]
    {
      ghost var s := Sys();
      ghost var gone: set<Key> := {};
      assert s.dir.archives - {} == s.dir.archives;
      var todo := Expired(dir.archives, clock, keepDays);
      assert Sys() == Without(s, gone);
      while todo != {}
        invariant Valid() && old(history) <= history && Safely() == old(Safely())
        invariant Sys() == Without(s, gone) && todo !! gone
        invariant todo + gone == Expired(s.dir.archives, s.clock, keepDays)
        invariant faults == old(faults)
        decreases todo
      {
        o := Try();
        if !o.Done? {
          PrunedByAge(s, gone, clock, keepDays);
          return;
        }
        var k :| k in todo;
        PruneOneMore(s, gone, k);
        DeleteArchive(k);
        todo, gone := todo - {k}, gone + {k};
      }
      PrunedByAge(s, gone, clock, keepDays);
      o := Done;
    }

    // -------------------------------------------------------------- startup

    /** Reconcile, prune, open.  Short of failures a start succeeds unless an orphan trips it, and it
        stays safe unless it finds a base of its own open date past midnight. */
    method Boot(now: int, later: int) returns (o: Outcome)
      requires Valid() && !booted && clock <= now <= later
      modifies this
      ensures Valid() && old(history) <= history && accepted == old(accepted)
      ensures Safely() <==>
                old(Safely()) && !(old(dir).base.Some? && old(dir).base.value.mtimeDay == openDate < now)
      ensures openDate == old(openDate)
      ensures o.Done? ==> booted && clock == later && handle == Open([])
      ensures o.Done? ==> Sys() == Booted(old(Sys()), now, later, keepDays)
      ensures o.Done? ==> StartLeaves(old(dir), now, later, keepDays, dir.archives)
      ensures o.Done? ==>
                dir.base == if old(dir).base.Some? && old(dir).base.value.mtimeDay >= now then old(dir).base
                            else Some(Text([], later))
      ensures !o.Done? ==> !booted
      ensures old(faults) <= faults && (faults > old(faults) ==> !o.Done?)
      ensures faults == old(faults) ==> (o.Done? <==> !TripsOverOwnTmp(BaseSettled(old(dir), now)))
    {
      hide Legal, Run, SafeRun, Step, Inv, Normal, PartlySettled, Safely;
      BootFacts();
      ReadClock(now);
      o := ReconcileStaleBase();
      if !o.Done? { return; }
      o := ReconcileOrphans();
      if !o.Done? { return; }
      PassesReachNormal(old(dir), dir, now);
      ReadClock(later);
      o := PruneExpired();
      if !o.Done? { return; }
      o := Try();
      if !o.Done? { return; }
      FinishBoot();
      BootedMeans(old(Sys()), now, later, keepDays);
    }

    lemma BootFacts()
      requires Valid() && !booted
      ensures openDate <= clock
    {
      AlwaysFramed(origin, history);
    }

    method FinishBoot()
      requires Valid() && !booted && dir.raws == map[]
      modifies this
      ensures Valid() && booted && old(history) <= history && Safely() == old(Safely()) && handle == Open([])
      ensures unchanged(`openDate, `clock, `next, `accepted, `pruned, `faults)
      ensures unchanged(`sizeRotations, `spacePrunes, `bytesReclaimed)
      ensures dir == TouchBase(old(dir), clock)
    {
      ghost var s := Sys();
      dir, handle, booted := TouchBase(dir, clock), Open([]), true;
      Record(s, BootOpen);
    }

    /** Rotate a leftover base last written on an earlier day. */
    method ReconcileStaleBase() returns (o: Outcome)
      requires Valid() && !booted
      modifies `dir, `history, `faults
      ensures Valid() && old(history) <= history
      ensures Safely() <==> old(Safely()) && !(Stale(old(dir), clock) && old(dir).base.value.mtimeDay == openDate)
      ensures o.Done? ==> dir == BaseSettled(old(dir), clock)
      ensures Reported(old(faults), faults, o)
    {
      o := Done;
      if dir.base.Some? && dir.base.value.mtimeDay < clock {
        ghost var s := Sys();
        ghost var stage;
        o, stage := AtomicGzip(InBase, Key(dir.base.value.mtimeDay, DAILY));
        Record(s, BootBase(stage));
      }
    }

    method DropTmp(k: Key)
      requires Valid() && !booted && k in dir.tmps
      modifies `dir, `history
      ensures Valid() && old(history) <= history && Safely() == old(Safely())
      ensures dir == old(dir).(tmps := old(dir).tmps - {k})
    {
      ghost var s := Sys();
      dir := dir.(tmps := dir.tmps - {k});
      Record(s, BootTmp(k));
    }

    /** Drop an orphan whose archive exists, gzip it otherwise. */
    method SettleOrphan(k: Key) returns (o: Outcome)
      requires Valid() && !booted && k in dir.raws
      modifies `dir, `history, `faults
      ensures Valid() && old(history) <= history && Safely() == old(Safely())
      ensures o.Done? ==> dir == SettleRaw(old(dir), k, 4)
      ensures Reported(old(faults), faults, o)
    {
      ghost var s := Sys();
      if k in dir.archives {
        o := Try();
        if !o.Done? { return; }
        dir := Unlink(dir, InRaw(k));
        Record(s, BootRaw(k, 4));
      } else {
        ghost var stage;
        o, stage := AtomicGzip(InRaw(k), k);
        Record(s, BootRaw(k, stage));
      }
    }

    /** A listed tmp partial: dropped, unless the directory no longer holds it. */
    method DropListed(k: Key, ghost was: Dir, ghost raws: set<Key>, ghost tmps: set<Key>) returns (ok: bool)
      requires Valid() && !booted && PartlySettled(was, dir, raws, tmps) && k in tmps - raws
      requires raws <= was.raws.Keys && tmps <= was.tmps.Keys
      modifies `dir, `history
      ensures Valid() && old(history) <= history && Safely() == old(Safely())
      ensures ok ==> PartlySettled(was, dir, raws, tmps - {k}) && !(k in was.raws && k !in was.archives)
      ensures !ok ==> TripsOverOwnTmp(was)
    {
      hide *;
      ListedButGone(was, dir, raws, tmps);
      if k !in dir.tmps {
        Trips(was, k);
        return false;
      }
      TmpSettled(was, dir, raws, tmps, k);
      DropTmp(k);
      ok := true;
    }

    /** A listed orphan: settled. */
    method SettleListed(k: Key, ghost was: Dir, ghost raws: set<Key>, ghost tmps: set<Key>) returns (o: Outcome)
      requires Valid() && !booted && PartlySettled(was, dir, raws, tmps) && k in raws
      requires raws <= was.raws.Keys && tmps <= was.tmps.Keys
      modifies `dir, `history, `faults
      ensures Valid() && old(history) <= history && Safely() == old(Safely())
      ensures o.Done? ==> PartlySettled(was, dir, raws - {k}, tmps)
      ensures old(faults) <= faults && (o.Done? <==> faults == old(faults))
    {
      assert forall a: nat, b: nat, x :: Reported(a, b, x) ==> a <= b && (x.Done? <==> a == b);
      hide *;
      ListedButGone(was, dir, raws, tmps);
      RawSettled(was, dir, raws, tmps, k);
      o := SettleOrphan(k);
    }

    /** Settle the orphans and tmp partials of one listing of the directory.  An orphan sorts before
        its own tmp; any other order is allowed. */
    method ReconcileOrphans() returns (o: Outcome)
      requires Valid() && !booted
      modifies `dir, `history, `faults
      ensures Valid() && old(history) <= history && Safely() == old(Safely())
      ensures o.Done? ==> PartlySettled(old(dir), dir, {}, {}) && !TripsOverOwnTmp(old(dir))
      ensures old(faults) <= faults && (faults > old(faults) ==> !o.Done?)
      ensures !o.Done? && faults == old(faults) ==> TripsOverOwnTmp(old(dir))
    {
      var raws, tmps := dir.raws.Keys, dir.tmps.Keys;
      ghost var was := dir;
      assert PartlySettled(was, dir, raws, tmps);
      hide *;
      while raws != {} || tmps != {}
        invariant Valid() && old(history) <= history && Safely() == old(Safely()) && faults == old(faults)
        invariant raws <= was.raws.Keys && tmps <= was.tmps.Keys
        invariant PartlySettled(was, dir, raws, tmps)
        invariant forall k :: k in was.tmps && k !in tmps ==> !(k in was.raws && k !in was.archives)
        decreases raws, tmps
      {
        o := Try();
        if !o.Done? { return; }
        var takeTmp: bool := *;
        if tmps - raws != {} && (takeTmp || raws == {}) {
          var k :| k in tmps - raws;
          var dropped := DropListed(k, was, raws, tmps);
          if !dropped { return Failed; }          // the listing is older than the directory
          tmps := tmps - {k};
        } else {
          var k :| k in raws;
          o := SettleListed(k, was, raws, tmps);
          if !o.Done? { return; }
          raws := raws - {k};
        }
      }
      TripsNot(was);
      o := Done;
    }

    // -------------------------------------------------------------- writing

    /** Roll over to a new day's base when the UTC date has moved on.  A handle whose close() had failed
        is no obstacle: closing it again does nothing. */
    method RotateIfNeeded(now: int) returns (o: Outcome)
      requires Valid() && booted && clock <= now
      modifies this
      ensures Valid() && booted && old(history) <= history && Safely() == old(Safely())
      ensures clock == now && accepted == old(accepted) && next == old(next)
      ensures unchanged(`sizeRotations, `spacePrunes, `bytesReclaimed)
      ensures o.Done? ==> Sys() == DayRolled(old(Sys()), now, keepDays)
      ensures o.Done? ==> RotationLeaves(old(dir), old(handle), old(openDate), now, keepDays, dir.archives)
      ensures o.Done? ==> dir.base == if now == old(openDate) then old(dir).base else Some(Text([], now))
      ensures Reported(old(faults), faults, o)
    {
      hide Legal, Run, SafeRun, Step, Inv, Enabled, Gzip, AppendBase, LinesIn, Safely, RotationLeaves;
      Facts();
      DayRolledMeans(Sys(), now, keepDays);
      ReadClock(now);
      if now == openDate { return Done; }
      o := FileDay();
      if !o.Done? { return; }
      Facts();
      o := PruneExpired();
      if !o.Done? { return; }
      assert Enabled(Sys(), OpenAt(now)) by { OpensNewDay(Sys(), now); }
      o := OpenBase(now);
    }

    /** Close the base and gzip it to the daily archive of its open date. */
    method FileDay() returns (o: Outcome)
      requires Valid() && booted && openDate < clock
      modifies `dir, `handle, `history, `faults
      ensures Valid() && old(history) <= history && Safely() == old(Safely())
      ensures o.Done? ==>
                var flushed := AppendBase(old(dir), Waiting(old(handle)), clock);
                && handle.Closed?
                && dir == if flushed.base.Some? then Gzip(flushed, InBase, Key(openDate, DAILY), 4) else flushed
      ensures Reported(old(faults), faults, o)
    {
      hide Legal, Run, SafeRun, Step, Inv, Safely;
      o := CloseHandle();
      if !o.Done? { return; }
      if dir.base.Some? {
        o := CompressBase(Key(openDate, DAILY));
      }
    }

    /** One more than the highest segment number of a day. */
    method NextSeq(day: int) returns (n: int)
      ensures IsNextSeq(dir.archives, day, n)
    {
      var highest := 0;
      var todo := dir.archives.Keys;
      while todo != {}
        invariant todo <= dir.archives.Keys
        invariant highest >= 0 && (highest == 0 || Key(day, highest) in dir.archives)
        invariant forall k :: k in dir.archives && k !in todo && k.day == day && k.num >= 0 ==> k.num <= highest
      {
        var k :| k in todo;
        if k.day == day && k.num > highest { highest := k.num; }
        todo := todo - {k};
      }
      n := highest + 1;
    }

    method LogDirBytes() returns (total: nat)
      ensures total == DirBytes(dir, sizes)
    {
      total := 0;
      var todo := Names(dir);
      while todo != {}
        invariant todo <= Names(dir)
        invariant total + Sum(dir, sizes, todo) == DirBytes(dir, sizes)
      {
        var n :| n in todo;
        SumSplit(dir, sizes, todo, n);
        total := total + SizeOf(dir, sizes, n);
        todo := todo - {n};
      }
    }

    /** The archive with the smallest (date, sequence) key. */
    method OldestPrunable() returns (victim: Option<Key>)
      ensures if dir.archives == map[] then victim.None? else victim.Some? && IsOldest(dir.archives.Keys, victim.value)
      ensures victim.Some? ==>
                var v := victim.value;
                forall x :: x in dir.archives && x != v ==> v.day < x.day || (v.day == x.day && v.num < x.num)
    {
      victim := None;
      var todo := dir.archives.Keys;
      while todo != {}
        invariant todo <= dir.archives.Keys
        invariant if todo == dir.archives.Keys then victim.None?
                  else victim.Some? && IsOldest(dir.archives.Keys - todo, victim.value)
      {
        var k :| k in todo;
        ghost var seen := dir.archives.Keys - todo;
        if victim.None? || Before(k, victim.value) { victim := Some(k); }
        todo := todo - {k};
        assert dir.archives.Keys - todo == seen + {k};
      }
      assert dir.archives.Keys - {} == dir.archives.Keys;
    }

    function Settings(): Guard { Guard(minFree, maxLog, sizes) }

    /** The process may die at any point. */
    method Dies() returns (d: bool)
      modifies `faults
      ensures faults == old(faults) + if d then 1 else 0
    {
      d := *;
      if d { faults := faults + 1; }
    }

    /** In the ring buffer's loop: since s, n deletions, each made while over budget and counted. */
    ghost predicate Turning(volume: Readings, s: State, n: nat, prunes: int, bytes: int)
      reads this
    {
      && Valid() && booted && s.proc.Up? && (minFree > 0 || maxLog > 0)
      && Pruning(Settings(), volume, s, Sys(), n, spacePrunes - prunes, bytesReclaimed - bytes)
    }

    ghost predicate Ended(volume: Readings, s: State, n: nat, prunes: int, bytes: int, verdict: Verdict)
      reads this
    {
      && Valid() && booted
      && Enforced(Settings(), volume, s, Sys(), n, spacePrunes - prunes, bytesReclaimed - bytes, verdict)
    }

    /** Delete the oldest archive and count it; `stopped` when that fails. */
    method DropVictim(k: Key, volume: Readings, ghost s: State, ghost n: nat, ghost prunes: int, ghost bytes: int)
      returns (stopped: bool, verdict: Verdict, ghost n': nat)
      requires Turning(volume, s, n, prunes, bytes) && IsOldest(dir.archives.Keys, k)
      requires Measured(Settings(), volume, s.dir, n, true)
      modifies `dir, `pruned, `history, `spacePrunes, `bytesReclaimed, `faults
      ensures old(history) <= history && Safely() == old(Safely())
      ensures faults == old(faults) + (if stopped then 1 else 0) && (stopped ==> IsFault(verdict))
      ensures if stopped then Ended(volume, s, n', prunes, bytes, verdict)
              else n' == n + 1 <= |s.dir.archives.Keys| && Turning(volume, s, n', prunes, bytes)
    {
      hide Legal, Run, SafeRun, Step, Inv, IsOldest, DirBytes, OverBudget, Measured, Enabled, Pruning, Enforced, Safely;
      stopped, verdict, n' := true, UnlinkFailed, n;
      var o := Try();                             // stat and unlink
      if !o.Done? {
        if o.Crashed? { verdict := Died; }
        StopHere(Settings(), volume, s, Sys(), n, spacePrunes - prunes, bytesReclaimed - bytes, verdict);
        return;
      }
      PruneOneVictim(Settings(), volume, s, Sys(), n, spacePrunes - prunes, bytesReclaimed - bytes, k);
      var reclaimed := sizes.gz(dir.archives[k]);
      DeleteArchive(k);
      n' := n + 1;
      o := Try();                                 // fsync the directory
      if !o.Done? {
        verdict := if o.Crashed? then Died else SyncFailed;
        return;
      }
      spacePrunes, bytesReclaimed, stopped := spacePrunes + 1, bytesReclaimed + reclaimed, false;
    }

    /** One turn of the ring buffer's loop; `stopped` when the call ends here. */
    method SpaceTurn(total: nat, volume: Readings, turn: nat,
                     ghost s: State, ghost n: nat, ghost prunes: int, ghost bytes: int)
      returns (stopped: bool, verdict: Verdict, ghost n': nat)
      requires Turning(volume, s, n, prunes, bytes) && turn == n + 1
      requires Read(volume, 0).Some? && Read(volume, 0).value.total == total
      modifies `dir, `pruned, `history, `spacePrunes, `bytesReclaimed, `faults
      ensures old(history) <= history && Safely() == old(Safely())
      ensures old(faults) <= faults && (stopped && IsFault(verdict) <==> faults > old(faults))
      ensures if stopped then Ended(volume, s, n', prunes, bytes, verdict)
              else n' == n + 1 <= |s.dir.archives.Keys| && Turning(volume, s, n', prunes, bytes)
    {
      hide Legal, Run, SafeRun, Step, Inv, IsOldest, DirBytes, OverBudget, Measured, Enabled, Pruning, Enforced, Safely;
      stopped, verdict, n' := true, Unmeasured, n;
      var dies := Dies();
      if dies || Read(volume, turn).None? {
        if dies { verdict := Died; }
        StopHere(Settings(), volume, s, Sys(), n, spacePrunes - prunes, bytesReclaimed - bytes, verdict);
        return;
      }
      var weight := LogDirBytes();
      TurnMeasured(Settings(), volume, s, Sys(), n, spacePrunes - prunes, bytesReclaimed - bytes, weight);
      var over := OverBudget(minFree, maxLog, total, Read(volume, turn).value.free, weight);
      var victim := OldestPrunable();
      if !over || victim.None? {
        verdict := if !over then Within else Exhausted;
        StopHere(Settings(), volume, s, Sys(), n, spacePrunes - prunes, bytesReclaimed - bytes, verdict);
        return;
      }
      stopped, verdict, n' := DropVictim(victim.value, volume, s, n, prunes, bytes);
    }

    /** The ring buffer.  The total is the first reading's; the free figure is read anew every turn. */
    method EnforceSpace(volume: Readings) returns (verdict: Verdict, ghost n: nat)
      requires Valid() && booted
      modifies `dir, `pruned, `history, `spacePrunes, `bytesReclaimed, `faults
      ensures Valid() && old(history) <= history && Safely() == old(Safely())
      ensures Enforced(Settings(), volume, old(Sys()), Sys(), n,
                       spacePrunes - old(spacePrunes), bytesReclaimed - old(bytesReclaimed), verdict)
      ensures old(faults) <= faults && (IsFault(verdict) <==> faults > old(faults))
      // in dates and percentages
      ensures OldestGone(old(dir), dir, n)
      ensures StoppedFor(volume, old(dir), n, spacePrunes - old(spacePrunes), bytesReclaimed - old(bytesReclaimed),
                         verdict)
    {
      hide *;
      SysIs();
      ghost var s, prunes, bytes := Sys(), spacePrunes, bytesReclaimed;
      n, verdict := 0, if minFree == 0 && maxLog == 0 then Disabled else Unmeasured;
      if verdict.Disabled? || Read(volume, 0).None? {
        EndsAtOnce(volume, verdict);
        return;
      }
      TurnsFromHere(volume);
      verdict, n := TakeTurns(Read(volume, 0).value.total, volume, s, prunes, bytes);
      EndedMeans(volume, s, n, prunes, bytes, verdict);
    }

    /** By the last readings of a call that deleted n archives, both percentages hold. */
    ghost predicate WithinPercentages(volume: Readings, n: nat)
      reads `dir
    {
      && n + 1 < |volume| && volume[0].Some? && volume[n + 1].Some?
      && LimitsHold(minFree, maxLog, volume[0].value.total, volume[n + 1].value.free, DirBytes(dir, sizes))
    }

    lemma EnforcedPlainly(volume: Readings, s: State, n: nat, prunes: int, bytes: int, verdict: Verdict)
      requires Enforced(Settings(), volume, s, Sys(), n, prunes, bytes, verdict)
      ensures OldestGone(s.dir, dir, n) && StoppedFor(volume, s.dir, n, prunes, bytes, verdict)
    {
      DroppedMeans(s, Sys(), n);
      EnforcedMeans(Settings(), volume, s, Sys(), n, prunes, bytes, verdict);
      assert dir == Dropped(s.dir, n);
      assert Read(volume, 0).None? ==> NotRead(volume, 0);
      assert Read(volume, n + 1).None? ==> NotRead(volume, n + 1);
      hide OldestDropped, DirBytes, OldestGone, Measured, Dropped, Read, NotRead;
    }

    /** Why a call stopped and what it counted. */
    ghost predicate StoppedFor(volume: Readings, was: Dir, n: nat, prunes: int, bytes: int, verdict: Verdict)
      reads `dir
    {
      && (verdict.Within? ==> WithinPercentages(volume, n))
      && (verdict.Unmeasured? ==> NotRead(volume, 0) || NotRead(volume, n + 1))
      && (verdict.Disabled? <==> minFree == 0 && maxLog == 0)
      && (verdict.Exhausted? ==> dir.archives == map[])
      && (!verdict.SyncFailed? && !verdict.Died? ==>
            prunes == n && bytes == DirBytes(was, sizes) - DirBytes(dir, sizes))
      && (verdict.SyncFailed? ==> n > 0 && prunes == n - 1)
    }

    lemma SysIs()
      ensures Sys().dir == dir && Sys().clock == clock && (booted ==> Sys().proc == Up(openDate, handle))
    {
    }

    lemma EndsAtOnce(volume: Readings, verdict: Verdict)
      requires if minFree == 0 && maxLog == 0 then verdict.Disabled? else verdict.Unmeasured? && Read(volume, 0).None?
      ensures Enforced(Settings(), volume, Sys(), Sys(), 0, 0, 0, verdict) && !IsFault(verdict)
      ensures OldestGone(dir, dir, 0) && StoppedFor(volume, dir, 0, 0, 0, verdict)
    {
      SysIs();
      NothingPruned(Settings(), volume, Sys());
      hide Enforced, Pruning, Sys, OldestGone, StoppedFor;
      StopHere(Settings(), volume, Sys(), Sys(), 0, 0, 0, verdict);
      EnforcedPlainly(volume, Sys(), 0, 0, 0, verdict);
    }

    lemma TurnsFromHere(volume: Readings)
      requires Valid() && booted && (minFree > 0 || maxLog > 0)
      ensures Turning(volume, Sys(), 0, spacePrunes, bytesReclaimed)
    {
      hide Pruning, Valid;
      NothingPruned(Settings(), volume, Sys());
    }

    lemma EndedMeans(volume: Readings, s: State, n: nat, prunes: int, bytes: int, verdict: Verdict)
      requires Ended(volume, s, n, prunes, bytes, verdict)
      ensures Valid()
      ensures Enforced(Settings(), volume, s, Sys(), n, spacePrunes - prunes, bytesReclaimed - bytes, verdict)
      ensures OldestGone(s.dir, dir, n)
      ensures StoppedFor(volume, s.dir, n, spacePrunes - prunes, bytesReclaimed - bytes, verdict)
    {
      hide Enforced, Valid, Sys, StoppedFor, OldestGone;
      EnforcedPlainly(volume, s, n, spacePrunes - prunes, bytesReclaimed - bytes, verdict);
    }

    method TakeTurns(total: nat, volume: Readings, ghost s: State, ghost prunes: int, ghost bytes: int)
      returns (verdict: Verdict, ghost n: nat)
      requires Turning(volume, s, 0, prunes, bytes)
      requires Read(volume, 0).Some? && Read(volume, 0).value.total == total
      modifies `dir, `pruned, `history, `spacePrunes, `bytesReclaimed, `faults
      ensures Ended(volume, s, n, prunes, bytes, verdict) && old(history) <= history && Safely() == old(Safely())
      ensures old(faults) <= faults && (IsFault(verdict) <==> faults > old(faults))
    {
      hide *;
      n, verdict := 0, Unmeasured;
      var turn, stopped := 1, false;
      while !stopped
        invariant old(history) <= history && Safely() == old(Safely())
        invariant old(faults) <= faults && (stopped && IsFault(verdict) <==> faults > old(faults))
        invariant if stopped then Ended(volume, s, n, prunes, bytes, verdict)
                  else turn == n + 1 && Turning(volume, s, n, prunes, bytes) && (n > 0 ==> n <= |s.dir.archives.Keys|)
        decreases !stopped, |s.dir.archives.Keys| - n
      {
        stopped, verdict, n := SpaceTurn(total, volume, turn, s, n, prunes, bytes);
        turn := turn + 1;
      }
    }

    method RollSegment(num: int) returns (o: Outcome)
      requires Valid() && booted && handle == Open([])
      requires IsNextSeq(dir.archives, openDate, num) && num <= MAX_SEQ && Key(openDate, DAILY) !in dir.archives
      modifies `dir, `handle, `openDate, `history, `faults
      ensures Valid() && old(history) <= history && Safely() == old(Safely())
      ensures o.Done? ==> Sys() == SizeRolled(old(Sys()), num) && openDate == old(openDate)
      ensures Reported(old(faults), faults, o)
    {
      hide Legal, Run, SafeRun, Step, Inv, Safely;
      Facts();
      o := CloseHandle();
      if !o.Done? { return; }
      assert dir == old(dir);
      o := CompressBase(Key(openDate, num));
      if !o.Done? { return; }
      o := OpenBase(openDate);
    }

    /** Roll the base to a numbered segment when it has reached the threshold, then enforce the budget.  A
        deletion that fails is swallowed; any other failure is not. */
    method RotateBySizeIfNeeded(volume: Readings)
      returns (o: Outcome, ghost rolled: Option<int>, ghost n: nat, verdict: Verdict)
      requires Valid() && booted && handle == Open([]) && Key(openDate, DAILY) !in dir.archives
      modifies this
      ensures Valid() && booted && old(history) <= history && Safely() == old(Safely())
      ensures accepted == old(accepted) && next == old(next)
      ensures o.Done? ==>
                SizeStepped(Settings(), volume, maxSegmentMb, old(Sys()), Sys(), rolled, n, verdict,
                            Gain(sizeRotations - old(sizeRotations), spacePrunes - old(spacePrunes),
                                 bytesReclaimed - old(bytesReclaimed)))
      ensures old(dir).base.Some?
      ensures o.Done? ==>
                StepLeaves(old(dir), old(dir).base.value.lines, openDate, clock, maxSegmentMb, sizes, rolled, n, dir)
      ensures clock == old(clock) && (o.Done? ==> openDate == old(openDate))
      ensures old(faults) <= faults
      ensures o.Done? <==> faults == old(faults) || (rolled.Some? && (verdict.UnlinkFailed? || verdict.SyncFailed?))
    {
      hide Sys, Valid, Safely, SizeRolled, Enforced, StepLeaves, SizeStepped, RollDue, OldestGone, IsNextSeq, At,
        Settings, StoppedFor;
      OpenHasBase();
      SysIs();
      ghost var s := Sys();
      rolled, n, verdict := None, 0, Disabled;
      if maxSegmentMb == 0 || sizes.text(At(dir, InBase)) < maxSegmentMb * MB {
        NoStep(volume, 1);
        return Done, None, 0, verdict;
      }
      var num := NextSeq(openDate);
      if num > MAX_SEQ {
        NoStep(volume, num);
        return Done, None, 0, verdict;
      }
      rolled := Some(num);
      o := RollSegment(num);
      if !o.Done? { return; }
      sizeRotations := sizeRotations + 1;
      verdict, n := EnforceSpace(volume);
      o := if verdict.Died? then Crashed else Done;
      if o.Done? {
        OneStep(volume, s, num, n, spacePrunes - old(spacePrunes), bytesReclaimed - old(bytesReclaimed), verdict);
      }
    }

    lemma OpenHasBase()
      requires Valid() && booted
      ensures handle.Open? ==> dir.base.Some?
    {
      Facts();
    }

    /** Below the threshold, or with no number left. */
    lemma NoStep(volume: Readings, num: int)
      requires booted
      requires maxSegmentMb == 0 || sizes.text(At(dir, InBase)) < maxSegmentMb * MB
               || (IsNextSeq(dir.archives, openDate, num) && num > MAX_SEQ)
      ensures SizeStepped(Settings(), volume, maxSegmentMb, Sys(), Sys(), None, 0, Disabled, Gain(0, 0, 0))
      ensures dir.base.Some? ==>
                StepLeaves(dir, dir.base.value.lines, openDate, clock, maxSegmentMb, sizes, None, 0, dir)
    {
      if num > MAX_SEQ && IsNextSeq(dir.archives, openDate, num) { NotDue(Sys(), maxSegmentMb, sizes, num); }
      StepPlainly(volume, Sys(), None, 0, Disabled, Gain(0, 0, 0));
    }

    lemma OneStep(volume: Readings, s: State, num: int, n: nat, prunes: int, bytes: int, verdict: Verdict)
      requires s.proc.Up? && maxSegmentMb > 0 && sizes.text(At(s.dir, InBase)) >= maxSegmentMb * MB && !verdict.Died?
      requires IsNextSeq(s.dir.archives, s.proc.openDate, num) && num <= MAX_SEQ
      requires Enforced(Settings(), volume, SizeRolled(s, num), Sys(), n, prunes, bytes, verdict)
      ensures SizeStepped(Settings(), volume, maxSegmentMb, s, Sys(), Some(num), n, verdict, Gain(1, prunes, bytes))
      ensures s.dir.base.Some? ==>
                StepLeaves(s.dir, s.dir.base.value.lines, s.proc.openDate, s.clock, maxSegmentMb, sizes,
                           Some(num), n, dir)
    {
      hide Enforced, SizeRolled;
      StepPlainly(volume, s, Some(num), n, verdict, Gain(1, prunes, bytes));
    }

    lemma StepPlainly(volume: Readings, s: State, rolled: Option<int>, n: nat, verdict: Verdict, gain: Gain)
      requires s.proc.Up? && SizeStepped(Settings(), volume, maxSegmentMb, s, Sys(), rolled, n, verdict, gain)
      ensures s.dir.base.Some? ==>
                StepLeaves(s.dir, s.dir.base.value.lines, s.proc.openDate, s.clock, maxSegmentMb, sizes, rolled, n, dir)
    {
      hide SizeStepped, StepLeaves;
      if s.dir.base.Some? {
        SizeSteppedMeans(Settings(), volume, maxSegmentMb, s, Sys(), rolled, n, verdict, gain);
      }
    }

    /** write + flush: what the handle still held and then the line, or only a part of that, the rest
        staying in the buffer. */
    method Flush(text: string) returns (o: Outcome, ghost landed: nat)
      requires Valid() && booted && handle.Open?
      modifies `dir, `handle, `next, `accepted, `history, `faults
      ensures Valid() && old(history) <= history && Safely() == old(Safely()) && next == old(next) + 1
      ensures var queue := old(handle).buf + [Line(old(next), text)];
              && landed <= |queue| && handle == Open(queue[landed..])
              && dir == AppendBase(old(dir), queue[..landed], clock)
              && accepted == old(accepted) + if landed == |queue| then {Line(old(next), text)} else {}
      ensures o.Done? ==> Sys() == Stored(old(Sys()), text, clock)
      ensures Reported(old(faults), faults, o)
      // behind the base's lines come the buffer's, then this one; or as much of that as landed
      ensures old(dir).base.Some? && dir.base.Some? && dir == old(dir).(base := dir.base)
      ensures dir.base.value.lines
              == old(dir).base.value.lines + (old(handle).buf + [Line(old(next), text)])[..landed]
      ensures o.Done? ==>
                dir.base.value.lines == old(dir).base.value.lines + old(handle).buf + [Line(old(next), text)]
                && handle == Open([])
    {
      hide Legal, Run, SafeRun, Inv, Safely;
      Facts();
      ghost var s := Sys();
      var queue := handle.buf + [Line(next, text)];
      var many;
      o, many := Deliver(|queue|);
      landed := many;
      dir, handle := AppendBase(dir, queue[..many], clock), Open(queue[many..]);
      accepted, next := accepted + (if landed == |queue| then {Line(next, text)} else {}), next + 1;
      assert queue[..|queue|] == queue && queue[|queue|..] == [];
      assert s.dir.base.value.lines + (s.proc.handle.buf + [Line(s.next, text)])
             == s.dir.base.value.lines + s.proc.handle.buf + [Line(s.next, text)];
      Record(s, Append(text, many));
    }

    /** Rotate, and reopen the base when there is no handle. */
    method PrepareBase(now: int, reopen: int) returns (o: Outcome)
      requires Valid() && booted && clock <= now <= reopen
      modifies this
      ensures Valid() && booted && old(history) <= history && Safely() == old(Safely())
      ensures clock <= reopen && accepted == old(accepted) && next == old(next)
      ensures unchanged(`sizeRotations, `spacePrunes, `bytesReclaimed)
      ensures o.Done? ==>
                Sys() == Reopened(DayRolled(old(Sys()), now, keepDays), reopen) && !handle.Closed?
                && Key(openDate, DAILY) !in dir.archives
      ensures o.Done? ==> (handle.Broken? <==> old(handle).Broken? && now == old(openDate))
      ensures Reported(old(faults), faults, o)
    {
      hide Legal, Run, SafeRun, Step, Inv, Safely, Without, Gzip, DayRolled;
      DayRolledProc(Sys(), now, keepDays);
      o := RotateIfNeeded(now);
      if !o.Done? { return; }
      Facts();
      if handle.Closed? {
        ReadClock(reopen);
        Facts();
        o := OpenBase(reopen);
      }
    }

    /** Write behind the rotation.  Short of failing calls the line is accepted, unless the handle is one
        whose close() failed and the date has not moved on. */
    method AcceptLine(text: string, now: int, reopen: int, stamp: int) returns (o: Outcome, ghost line: Line)
      requires Valid() && booted && clock <= now <= reopen <= stamp
      modifies this
      ensures Valid() && booted && old(history) <= history && Safely() == old(Safely())
      ensures line.text == text && accepted <= old(accepted) + {line} && line !in old(accepted)
      ensures unchanged(`sizeRotations, `spacePrunes, `bytesReclaimed)
      ensures o.Done? ==>
                var a := Reopened(DayRolled(old(Sys()), now, keepDays), reopen);
                a.proc.Up? && a.proc.handle.Open? && Sys() == Stored(a, text, stamp)
      ensures old(faults) <= faults
      ensures o.Done? <==> faults == old(faults) && !(old(handle).Broken? && now == old(openDate))
      ensures o.Done? ==> handle == Open([]) && accepted == old(accepted) + {line}
      ensures o.Done? ==> Key(openDate, DAILY) !in dir.archives
      // the line is the base's last, and the rotation left every older one in its place
      ensures o.Done? ==>
                && RotationLeaves(old(dir), old(handle), old(openDate), now, keepDays, dir.archives)
                && dir.base == Some(Text(Resumed(old(dir), old(handle), old(openDate), now) + [line], stamp))
                && openDate == (if now == old(openDate) && old(handle).Closed? then reopen else now)
                && clock == stamp
    {
      hide Legal, Run, SafeRun, Step, Inv, Safely, Reopened, DayRolled, RotationLeaves, Resumed;
      line := Line(next, text);
      Facts();
      ghost var s := Sys();
      o := PrepareBase(now, reopen);
      if !o.Done? { return; }
      if handle.Broken? { return Failed, line; }   // a closed file object refuses the write
      ReadClock(stamp);
      ghost var landed;
      o, landed := Flush(text);
      if o.Done? { StoredMeans(s, text, now, reopen, stamp, keepDays); }
    }

    /** Append one line: rotate, write and flush, then roll by size. */
    method Write(text: string, now: int, reopen: int, stamp: int, volume: Readings)
      returns (o: Outcome, ghost line: Line, ghost rolled: Option<int>, ghost n: nat, verdict: Verdict)
      requires Valid() && booted && clock <= now <= reopen <= stamp
      modifies this
      ensures Valid() && booted && old(history) <= history && Safely() == old(Safely())
      ensures line.text == text && accepted <= old(accepted) + {line} && line !in old(accepted)
      ensures o.Done? ==>
                var a := Reopened(DayRolled(old(Sys()), now, keepDays), reopen);
                && a.proc.Up? && a.proc.handle.Open? && accepted == old(accepted) + {line}
                && SizeStepped(Settings(), volume, maxSegmentMb, Stored(a, text, stamp), Sys(), rolled, n, verdict,
                               Gain(sizeRotations - old(sizeRotations), spacePrunes - old(spacePrunes),
                                    bytesReclaimed - old(bytesReclaimed)))
      ensures old(faults) <= faults
      // it succeeds exactly when no call but a swallowed deletion fails and the handle is usable
      ensures o.Done? <==>
                && !(old(handle).Broken? && now == old(openDate))
                && (faults == old(faults) || (rolled.Some? && (verdict.UnlinkFailed? || verdict.SyncFailed?)))
      ensures o.Done? ==>
                WriteLeaves(old(dir), old(handle), old(openDate), now, keepDays, line, openDate, stamp,
                            maxSegmentMb, sizes, rolled, n, dir)
    {
      hide *;
      rolled, n, verdict := None, 0, Disabled;
      o, line := AcceptLine(text, now, reopen, stamp);
      if !o.Done? { return; }
      ghost var mid := dir;
      o, rolled, n, verdict := RotateBySizeIfNeeded(volume);
      if o.Done? {
        WriteLeavesIf(old(dir), old(handle), old(openDate), now, keepDays, line, openDate, stamp,
                      maxSegmentMb, sizes, rolled, n, mid, dir);
      }
    }

    /** Flush and close at shutdown; a failure is swallowed with whatever part reached the file. */
    method Shutdown() returns (ghost landed: nat)
      requires Valid() && booted
      modifies `dir, `handle, `history, `faults
      ensures Valid() && old(history) <= history && Safely() == old(Safely()) && handle.Closed?
      ensures landed <= |Waiting(old(handle))| && dir == AppendBase(old(dir), Waiting(old(handle))[..landed], clock)
      ensures old(faults) <= faults && (faults == old(faults) ==> landed == |Waiting(old(handle))|)
      ensures if old(handle).Open? && landed > 0 then
                && old(dir).base.Some?
                && dir.base == Some(Text(old(dir).base.value.lines + old(handle).buf[..landed], clock))
              else dir == old(dir)
      ensures old(handle).Open? && faults == old(faults) ==> landed == |old(handle).buf|
    {
      Facts();
      ghost var s := Sys();
      var queue := Waiting(handle);
      hide Legal, Run, SafeRun, Inv, Safely;
      var _, out := Deliver(|queue|);
      assert queue[..|queue|] == queue;
      dir, handle, landed := AppendBase(dir, queue[..out], clock), Closed, out;
      Record(s, Close(out, false));
    }
  }
}
