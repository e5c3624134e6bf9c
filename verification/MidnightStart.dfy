/** What a start that straddles midnight does to the base it finds. */
module MidnightStart {
  import opened Common
  import opened StorageMachine
  import opened Reconcile
  import opened StorageWriter

  /** A start that succeeds, its open date the state's clock day and its other clock reads on `day`,
      followed by a first write that succeeds, also on `day`. */
  ghost function StartAndWrite(s: State, day: int, text: string, keepDays: nat): State
    requires s.proc.Down? && s.clock <= day
  {
    var b := Booted(Step(s, Start), day, day, keepDays);
    Stored(DayRolled(b, day, keepDays), text, day)
  }

  ghost predicate Safekept(s: State, l: Line) { Kept(s.dir, l) || l in s.pruned }

  /** A non-empty base last written on the open date, found past midnight and within retention. */
  ghost predicate Straddles(s: State, day: int, keepDays: nat) {
    && At(s.dir, InBase) != [] && s.dir.base.value.mtimeDay == s.clock < day
    && day - s.clock <= keepDays
  }

  // ---------------------------------------------------------------- what is kept

  /** Where reconciliation puts what it finds at a place. */
  function Home(d: Dir, day: int, p: Place): Place {
    match p
    case InBase => if Stale(d, day) then InArchive(Key(d.base.value.mtimeDay, DAILY)) else InBase
    case InArchive(_) => p
    case InRaw(k) => InArchive(k)
  }

  lemma HomeHolds(d: Dir, clock: int, day: int, p: Place, l: Line)
    requires DirOk(d, clock) && l in At(d, p)
    ensures l in At(Normal(d, day), Home(d, day, p))
  {
    NormalHoldsEverything(d, clock, day);
    hide Normal;
    if p.InArchive? { assert p.k in d.archives; }
    if p.InRaw? { assert p.k in d.raws; }
  }

  lemma PrunedHolds(s: State, gone: set<Key>, p: Place, l: Line)
    requires l in At(s.dir, p)
    ensures l in Without(s, gone).pruned || l in At(Without(s, gone).dir, p)
  {
    if p.InArchive? && p.k in gone {
      var i :| 0 <= i < |At(s.dir, p)| && At(s.dir, p)[i] == l;
      assert At(s.dir, InArchive(p.k))[i] == l;
    }
  }

  lemma BootedHolds(s: State, day: int, keepDays: nat, p: Place, l: Line)
    requires s.proc.Booting? && l in At(Normal(s.dir, day), p)
    ensures var b := Booted(s, day, day, keepDays); l in b.pruned || l in At(b.dir, p)
  {
    var settled := s.(dir := Normal(s.dir, day), clock := day, proc := Up(s.proc.openDate, Closed));
    PrunedHolds(settled, Expired(settled.dir.archives, day, keepDays), p, l);
    hide Normal, Without;
  }

  lemma RolledHolds(b: State, day: int, keepDays: nat, p: Place, l: Line)
    requires b.proc.Up? && b.proc.handle == Open([]) && l in At(b.dir, p)
    requires b.proc.openDate != day ==> p.InArchive? && p.k != Key(b.proc.openDate, DAILY)
    ensures var r := DayRolled(b, day, keepDays); l in r.pruned || l in At(r.dir, p)
  {
    if b.proc.openDate != day {
      var filed := if b.dir.base.Some? then Gzip(b.dir, InBase, Key(b.proc.openDate, DAILY), 4) else b.dir;
      assert AppendBase(b.dir, [], day) == b.dir;
      PrunedHolds(b.(dir := filed, clock := day), Expired(filed.archives, day, keepDays), p, l);
    }
  }

  lemma OtherStartKeeps(s: State, day: int, text: string, keepDays: nat, l: Line)
    requires Inv(s) && s.proc.Down? && s.clock <= day && Safekept(s, l) && !Straddles(s, day, keepDays)
    ensures Safekept(StartAndWrite(s, day, text, keepDays), l)
  {
    var a := Step(s, Start);
    var b := Booted(a, day, day, keepDays);
    if l !in b.pruned {
      var p :| l in At(s.dir, p);
      var home := Home(s.dir, day, p);
      HomeHolds(s.dir, s.clock, day, p, l);
      BootedHolds(a, day, keepDays, home, l);
      if s.clock < day { HomeIsSafe(s, day, keepDays, p, l); }
      RolledHolds(b, day, keepDays, home, l);
      var r := DayRolled(b, day, keepDays);
      assert l in r.pruned || Kept(r.dir, l);
      if l !in r.pruned { AppendKeeps(r.dir, Queue(r, text), day, l); }
    }
  }

  /** The start prunes a line, or the rollover spares its home. */
  lemma HomeIsSafe(s: State, day: int, keepDays: nat, p: Place, l: Line)
    requires Inv(s) && s.proc.Down? && s.clock < day && l in At(s.dir, p) && !Straddles(s, day, keepDays)
    ensures var home := Home(s.dir, day, p);
            || l in Booted(Step(s, Start), day, day, keepDays).pruned
            || (home.InArchive? && home != InArchive(Key(s.clock, DAILY)))
  {
    var home := Home(s.dir, day, p);
    if home == InArchive(Key(s.clock, DAILY)) {
      HomeHolds(s.dir, s.clock, day, p, l);
      assert p == InBase && day - s.clock > keepDays;
      var n := Normal(s.dir, day);
      assert home.k in Expired(n.archives, day, keepDays);
      var i :| 0 <= i < |At(n, home)| && At(n, home)[i] == l;
      assert At(n, InArchive(home.k))[i] == l;
    }
  }

  // ---------------------------------------------------------------- what is lost

  /** A line of the base alone is in no archive of the normal form but the base's own. */
  lemma NormalFrom(s: State, day: int, k: Key, l: Line)
    requires Once(s) && l in At(s.dir, InBase) && Stale(s.dir, day)
    ensures k != Key(s.dir.base.value.mtimeDay, DAILY) ==> l !in At(Normal(s.dir, day), InArchive(k))
  {
    OnlyThere(s, InBase, l);
    assert l !in At(s.dir, InArchive(k)) && l !in At(s.dir, InRaw(k));
    hide Once;
  }

  /** After such a start the line is in the open date's archive and nowhere else. */
  lemma BootedFrom(s: State, day: int, keepDays: nat, l: Line)
    requires Inv(s) && Once(s) && s.proc.Down? && l in At(s.dir, InBase) && Straddles(s, day, keepDays)
    ensures var b := Booted(Step(s, Start), day, day, keepDays);
            && b.proc == Up(s.clock, Open([])) && b.next == s.next && b.dir.base == Some(Text([], day))
            && l !in b.pruned && b.dir.raws == map[]
            && forall k :: k != Key(s.clock, DAILY) ==> l !in At(b.dir, InArchive(k))
  {
    OnlyThere(s, InBase, l);
    hide Once, Inv;
    var n := Normal(s.dir, day);
    assert n.base.None? && n.raws == map[];
    forall k | k != Key(s.clock, DAILY) ensures l !in At(n, InArchive(k)) { NormalFrom(s, day, k, l); }
    hide Normal;
    assert l !in LinesIn(n, Expired(n.archives, day, keepDays));
  }

  lemma RolledFrom(b: State, o: int, day: int, keepDays: nat, l: Line)
    requires b.proc == Up(o, Open([])) && o < day && b.dir.base == Some(Text([], day)) && b.dir.raws == map[]
    requires l !in b.pruned && forall k :: k != Key(o, DAILY) ==> l !in At(b.dir, InArchive(k))
    ensures var r := DayRolled(b, day, keepDays); r.next == b.next && l !in r.pruned && !Kept(r.dir, l)
  {
    var filed := Gzip(b.dir, InBase, Key(o, DAILY), 4);
    assert AppendBase(b.dir, [], day) == b.dir;
    forall k ensures l !in At(filed, InArchive(k)) { assert k != Key(o, DAILY) ==> l !in At(b.dir, InArchive(k)); }
    assert l !in LinesIn(filed, Expired(filed.archives, day, keepDays));
    var r := DayRolled(b, day, keepDays);
    forall p ensures l !in At(r.dir, p) {
      if p.InArchive? { assert l !in At(filed, p); }
    }
  }

  lemma StraddlingStartDrops(s: State, day: int, text: string, keepDays: nat, l: Line)
    requires Inv(s) && Once(s) && s.proc.Down? && s.clock <= day
    requires Straddles(s, day, keepDays) && l in At(s.dir, InBase)
    ensures !Safekept(StartAndWrite(s, day, text, keepDays), l)
  {
    assert l.id < s.next;
    BootedFrom(s, day, keepDays, l);
    var b := Booted(Step(s, Start), day, day, keepDays);
    hide Booted, Inv, Once;
    RolledFrom(b, s.clock, day, keepDays, l);
    var r := DayRolled(b, day, keepDays);
    hide DayRolled;
    forall p ensures l !in At(AppendBase(r.dir, Queue(r, text), day), p) {
      if l in At(AppendBase(r.dir, Queue(r, text), day), p) {
        AppendBringsOnly(r.dir, Queue(r, text), day, p, l);
      }
    }
  }

  /** A start and first write keep or prune every line exactly when they do not straddle midnight over a
      non-empty base of the open date: such a base is archived under the open date and that archive is
      then replaced. */
  lemma StraddlingStartLosesTheBase(s: State, day: int, text: string, keepDays: nat)
    requires Inv(s) && Once(s) && s.proc.Down? && s.clock <= day
    ensures (forall l :: Safekept(s, l) ==> Safekept(StartAndWrite(s, day, text, keepDays), l))
       <==> !Straddles(s, day, keepDays)
  {
    if Straddles(s, day, keepDays) {
      var l := At(s.dir, InBase)[0];
      assert l in At(s.dir, InBase);
      assert Safekept(s, l);
      hide StartAndWrite;
      StraddlingStartDrops(s, day, text, keepDays, l);
    } else {
      forall l | Safekept(s, l) ensures Safekept(StartAndWrite(s, day, text, keepDays), l) {
        OtherStartKeeps(s, day, text, keepDays, l);
      }
    }
  }

  lemma ExampleIsSound(l: Line)
    requires l.id == 0
    ensures Inv(State(Dir(Some(Text([l], 7)), map[], map[], map[], map[]), Down, 7, 1, {l}, {}))
    ensures Once(State(Dir(Some(Text([l], 7)), map[], map[], map[], map[]), Down, 7, 1, {l}, {}))
  {
    var d := Dir(Some(Text([l], 7)), map[], map[], map[], map[]);
    assert l in At(d, InBase);
  }

  /** One such start: a line accepted today is gone after a restart over midnight and one write. */
  lemma StraddlingStartExample(l: Line)
    requires l.id == 0
    ensures var s := State(Dir(Some(Text([l], 7)), map[], map[], map[], map[]), Down, 7, 1, {l}, {});
            Inv(s) && Once(s) && !Conserved(StartAndWrite(s, 8, "next", 30))
  {
    var s := State(Dir(Some(Text([l], 7)), map[], map[], map[], map[]), Down, 7, 1, {l}, {});
    ExampleIsSound(l);
    assert l in At(s.dir, InBase);
    StraddlingStartDrops(s, 8, "next", 30, l);
    assert l in StartAndWrite(s, 8, "next", 30).accepted by { AcceptedStays(s, 8, "next", 30); }
    hide Inv, Once, StartAndWrite, Kept;
  }

  lemma AcceptedStays(s: State, day: int, text: string, keepDays: nat)
    requires s.proc.Down? && s.clock <= day
    ensures StartAndWrite(s, day, text, keepDays).accepted == s.accepted + {Line(s.next, text)}
  {
  }
}
