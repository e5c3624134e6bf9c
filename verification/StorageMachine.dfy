/** The py-syslog storage sink as a state machine over its log directory.

    A state is the directory as the file system holds it after a process crash (flushed data
    survives), the writer process, the UTC day of the last clock read, and the ledger of lines
    accepted and pruned.  Every event is one step after which a fault may fall; a gzip that stops
    early is an event with its stage.  The file system's own power-loss ordering is in PowerLoss. */
module StorageMachine {
  import opened Common

  // ---------------------------------------------------------------- directory

  /** A submitted line.  Ids are never reused, so a line is one submission, not one text. */
  datatype Line = Line(id: nat, text: string)

  /** The date and sequence embedded in an archive's name; DAILY marks the bare daily form. */
  datatype Key = Key(day: int, num: int)
  const DAILY := -1
  const MAX_SEQ := 999

  datatype Gz = Whole(lines: seq<Line>) | Cut
  datatype Text = Text(lines: seq<Line>, mtimeDay: int)

  /** The log directory: the active base, `<base>.<key>.gz`, `<base>.<key>`,
      `<base>.<key>.gz.tmp`, and every other file by name with its size. */
  datatype Dir = Dir(base: Option<Text>, archives: map<Key, Gz>, raws: map<Key, seq<Line>>,
                     tmps: map<Key, Gz>, others: map<string, nat>)

  datatype Place = InBase | InArchive(k: Key) | InRaw(k: Key)

  /** The lines readable at a place; a truncated gzip yields none. */
  function At(d: Dir, p: Place): seq<Line> {
    match p
    case InBase => if d.base.Some? then d.base.value.lines else []
    case InArchive(k) => if k in d.archives && d.archives[k].Whole? then d.archives[k].lines else []
    case InRaw(k) => if k in d.raws then d.raws[k] else []
  }

  ghost predicate Kept(d: Dir, l: Line) { exists p :: l in At(d, p) }

  function Unlink(d: Dir, p: Place): Dir {
    match p
    case InBase => d.(base := None)
    case InArchive(k) => d.(archives := d.archives - {k})
    case InRaw(k) => d.(raws := d.raws - {k})
  }

  /** The directory after an atomic gzip of `src` to `<k>.gz` that got as far as `stage`:
      1 tmp partial, 2 tmp whole, 3 renamed over the final name, 4 source unlinked. */
  function Gzip(d: Dir, src: Place, k: Key, stage: nat): Dir
    requires stage <= 4
  {
    if stage == 0 then d
    else if stage == 1 then d.(tmps := d.tmps[k := Cut])
    else if stage == 2 then d.(tmps := d.tmps[k := Whole(At(d, src))])
    else
      var renamed := d.(tmps := d.tmps - {k}, archives := d.archives[k := Whole(At(d, src))]);
      if stage == 3 then renamed else Unlink(renamed, src)
  }

  /** Appending to the base through an append-mode handle; writing nothing leaves it alone. */
  function AppendBase(d: Dir, lines: seq<Line>, day: int): Dir {
    if lines == [] then d else d.(base := Some(Text(At(d, InBase) + lines, day)))
  }

  /** Opening the base in append mode creates it when missing and does not touch it otherwise. */
  function TouchBase(d: Dir, day: int): Dir {
    if d.base.Some? then d else d.(base := Some(Text([], day)))
  }

  // ---------------------------------------------------------------- states and events

  /** Open keeps the lines whose flush failed and still wait in the handle's buffer.
      Broken is a handle whose close() raised: it is still set, but closed underneath. */
  datatype Handle = Closed | Open(buf: seq<Line>) | Broken

  datatype Proc = Down | Booting(openDate: int) | Up(openDate: int, handle: Handle)

  datatype State = State(dir: Dir, proc: Proc, clock: int, next: nat,
                         accepted: set<Line>, pruned: set<Line>)

  datatype Event =
    | Tick(day: int)                       // the clock is read
    | Crash
    | Start                                // the constructor reads its open date
    | BootBase(stage: nat)                 // reconcile a base of an earlier day
    | BootTmp(k: Key)                      // drop a tmp partial
    | BootRaw(k: Key, stage: nat)          // settle an uncompressed orphan
    | BootOpen
    | Prune(k: Key)                        // retention or the ring buffer deletes an archive
    | Close(landed: nat, broken: bool)
    | Append(text: string, landed: nat)    // write + flush; `landed` queued lines reach the file
    | GzipBase(k: Key, stage: nat)
    | OpenAt(day: int)

  /** One more than the highest same-day segment number, 1 when there is none. */
  ghost predicate IsNextSeq(archives: map<Key, Gz>, day: int, n: int) {
    && n >= 1
    && (forall k :: k in archives && k.day == day && k.num >= 0 ==> k.num < n)
    && (n == 1 || Key(day, n - 1) in archives)
  }

  ghost predicate Enabled(s: State, e: Event) {
    match e
    case Tick(day) => s.clock <= day
    case Crash => true
    case Start => s.proc.Down?
    case BootBase(stage) => s.proc.Booting? && stage <= 4 && s.dir.base.Some? && s.dir.base.value.mtimeDay < s.clock
    case BootTmp(k) => s.proc.Booting? && k in s.dir.tmps
    case BootRaw(k, stage) => s.proc.Booting? && stage <= 4 && k in s.dir.raws
    case BootOpen => s.proc.Booting? && s.dir.raws == map[]
    case Prune(k) => !s.proc.Down? && k in s.dir.archives
    case Close(landed, broken) =>
      && s.proc.Up?
      && if s.proc.handle.Open? then landed <= |s.proc.handle.buf| else landed == 0 && !broken
    case Append(_, landed) => s.proc.Up? && s.proc.handle.Open? && landed <= |s.proc.handle.buf| + 1
    case GzipBase(k, stage) =>
      && s.proc.Up? && s.proc.handle.Closed? && s.dir.base.Some? && stage <= 4
      && k.day == s.proc.openDate
      && if k.num == DAILY then s.proc.openDate < s.clock
         else k.num <= MAX_SEQ && IsNextSeq(s.dir.archives, k.day, k.num)
    case OpenAt(day) =>
      && s.proc.Up? && s.proc.handle.Closed? && s.proc.openDate <= day <= s.clock
      && (day > s.proc.openDate || Key(day, DAILY) !in s.dir.archives)
  }

  /** An orphan whose archive already exists is dropped, otherwise gzipped. */
  function SettleRaw(d: Dir, k: Key, stage: nat): Dir
    requires stage <= 4
  {
    if k !in d.archives then Gzip(d, InRaw(k), k, stage)
    else if stage == 4 then Unlink(d, InRaw(k))
    else d
  }

  function Queue(s: State, text: string): seq<Line>
    requires s.proc.Up? && s.proc.handle.Open?
  {
    s.proc.handle.buf + [Line(s.next, text)]
  }

  ghost function Step(s: State, e: Event): State
    requires Enabled(s, e)
  {
    match e
    case Tick(day) => s.(clock := day)
    case Crash => s.(proc := Down)
    case Start => s.(proc := Booting(s.clock))
    case BootBase(stage) => s.(dir := Gzip(s.dir, InBase, Key(s.dir.base.value.mtimeDay, DAILY), stage))
    case BootTmp(k) => s.(dir := s.dir.(tmps := s.dir.tmps - {k}))
    case BootRaw(k, stage) => s.(dir := SettleRaw(s.dir, k, stage))
    case BootOpen => s.(dir := TouchBase(s.dir, s.clock), proc := Up(s.proc.openDate, Open([])))
    case Prune(k) =>
      s.(dir := Unlink(s.dir, InArchive(k)), pruned := s.pruned + set l | l in At(s.dir, InArchive(k)))
    case Close(landed, broken) =>
      var out := if s.proc.handle.Open? then s.proc.handle.buf[..landed] else [];
      s.(dir := AppendBase(s.dir, out, s.clock),
         proc := s.proc.(handle := if broken then Broken else Closed))
    case Append(text, landed) =>
      var queue := Queue(s, text);
      s.(dir := AppendBase(s.dir, queue[..landed], s.clock),
         proc := s.proc.(handle := Open(queue[landed..])),
         next := s.next + 1,
         accepted := if landed == |queue| then s.accepted + {Line(s.next, text)} else s.accepted)
    case GzipBase(k, stage) => s.(dir := Gzip(s.dir, InBase, k, stage))
    case OpenAt(day) => s.(dir := TouchBase(s.dir, s.clock), proc := Up(day, Open([])))
  }

  // ---------------------------------------------------------------- runs

  ghost predicate Legal(s: State, es: seq<Event>)
    decreases |es|, 0
  {
    es == [] ||
    (var last := |es| - 1; Legal(s, es[..last]) && Enabled(Run(s, es[..last]), es[last]))
  }

  ghost function Run(s: State, es: seq<Event>): State
    requires Legal(s, es)
    decreases |es|, 1
  {
    if es == [] then s else var last := |es| - 1; Step(Run(s, es[..last]), es[last])
  }

  lemma {:induction false} PrefixLegal(s: State, es: seq<Event>, i: nat)
    requires Legal(s, es) && i <= |es|
    ensures Legal(s, es[..i])
    decreases |es|
  {
    if i < |es| {
      PrefixLegal(s, es[..|es| - 1], i);
      assert es[..|es| - 1][..i] == es[..i];
    } else {
      assert es[..i] == es;
    }
  }

  lemma {:induction false} RunSnoc(s: State, es: seq<Event>, e: Event)
    requires Legal(s, es) && Enabled(Run(s, es), e)
    ensures Legal(s, es + [e]) && Run(s, es + [e]) == Step(Run(s, es), e)
  {
    assert (es + [e])[..|es|] == es;
  }

  // ---------------------------------------------------------------- the invariant

  ghost predicate SameOrAbsent(d: Dir, k: Key, lines: seq<Line>) {
    && (k in d.archives ==> d.archives[k] == Whole(lines))
    && (k in d.raws ==> d.raws[k] == lines)
  }

  /** What every directory a crash may leave satisfies at a clock day. */
  ghost predicate DirOk(d: Dir, clock: int) {
    && (forall k :: k in d.archives ==> d.archives[k].Whole?)
    && (forall k :: k in d.raws && k in d.archives ==> d.archives[k] == Whole(d.raws[k]))
    && (forall k :: (k in d.archives || k in d.raws) && k.num == DAILY ==> k.day < clock)
    && (d.base.Some? ==>
          && d.base.value.mtimeDay <= clock
          && SameOrAbsent(d, Key(d.base.value.mtimeDay, DAILY), d.base.value.lines))
  }

  ghost predicate ProcOk(s: State) {
    match s.proc
    case Down => true
    case Booting(o) =>
      && o <= s.clock
      && (forall k :: (k in s.dir.archives || k in s.dir.raws) && k.num == DAILY ==> k.day < o)
      && (s.dir.base.Some? ==> s.dir.base.value.mtimeDay <= o)
    case Up(o, h) =>
      && o <= s.clock
      && s.dir.raws == map[]
      && (h.Open? ==> s.dir.base.Some?)
      && (forall k :: k in s.dir.archives && k.num == DAILY ==> k.day <= o)
      // the daily archive of the open date exists only while a rollover is waiting to be finished
      && (Key(o, DAILY) in s.dir.archives ==>
            && h.Closed? && o < s.clock
            && (s.dir.base.Some? ==> s.dir.archives[Key(o, DAILY)] == Whole(s.dir.base.value.lines)))
  }

  /** Every accepted line is in the base, an orphan, a complete archive, or was pruned. */
  ghost predicate Conserved(s: State) {
    forall l :: l in s.accepted ==> l in s.pruned || Kept(s.dir, l)
  }

  ghost predicate Inv(s: State) {
    && DirOk(s.dir, s.clock) && ProcOk(s) && Conserved(s)
    && (forall l :: l in s.accepted ==> l.id < s.next)
  }

  /** The one thing a start must not do: archive a base of the open date itself.  Over an empty base it
      loses nothing, but leaves an empty archive that the next rollover replaces. */
  ghost predicate Safe(s: State, e: Event) {
    e.BootBase? && s.proc.Booting? && s.dir.base.Some? ==> s.dir.base.value.mtimeDay != s.proc.openDate
  }

  // ---------------------------------------------------------------- one step

  lemma GzipKeeps(d: Dir, src: Place, k: Key, stage: nat, l: Line)
    requires stage <= 4 && src != InArchive(k) && Kept(d, l)
    requires k in d.archives ==> d.archives[k] == Whole(At(d, src))
    ensures Kept(Gzip(d, src, k, stage), l)
  {
    var p :| l in At(d, p);
    var d' := Gzip(d, src, k, stage);
    if p == src {
      assert l in At(d', if stage < 3 then src else InArchive(k));
    } else {
      assert l in At(d', p);
    }
  }

  lemma AppendKeeps(d: Dir, lines: seq<Line>, day: int, l: Line)
    requires Kept(d, l) || l in lines
    ensures Kept(AppendBase(d, lines, day), l)
  {
    var d' := AppendBase(d, lines, day);
    if l in lines {
      assert l in At(d', InBase);
    } else {
      var p :| l in At(d, p);
      assert l in At(d', p);
    }
  }

  /** The rename never lands on an archive that holds anything else than the source. */
  lemma ReplaceIsSafe(s: State, e: Event)
    requires Inv(s) && Enabled(s, e)
    ensures e.GzipBase? && e.k in s.dir.archives ==> s.dir.archives[e.k] == Whole(At(s.dir, InBase))
    ensures e.BootBase? ==>
              var k := Key(s.dir.base.value.mtimeDay, DAILY);
              k in s.dir.archives ==> s.dir.archives[k] == Whole(At(s.dir, InBase))
    ensures e.BootRaw? && e.k in s.dir.archives ==> s.dir.archives[e.k] == Whole(At(s.dir, InRaw(e.k)))
  {
  }

  lemma StepKeepsLines(s: State, e: Event, l: Line)
    requires Inv(s) && Enabled(s, e) && l in s.accepted
    ensures var s' := Step(s, e); l in s'.pruned || Kept(s'.dir, l)
  {
    if l in s.pruned { return; }
    ReplaceIsSafe(s, e);
    match e
    case BootBase(stage) => GzipKeeps(s.dir, InBase, Key(s.dir.base.value.mtimeDay, DAILY), stage, l);
    case BootRaw(k, stage) =>
      if k !in s.dir.archives {
        GzipKeeps(s.dir, InRaw(k), k, stage, l);
      } else {
        var p :| l in At(s.dir, p);
        assert l in At(SettleRaw(s.dir, k, stage), if p == InRaw(k) then InArchive(k) else p);
      }
    case GzipBase(k, stage) => GzipKeeps(s.dir, InBase, k, stage, l);
    case Prune(k) =>
      var p :| l in At(s.dir, p);
      assert p != InArchive(k) ==> l in At(Step(s, e).dir, p);
    case Close(landed, broken) =>
      AppendKeeps(s.dir, if s.proc.handle.Open? then s.proc.handle.buf[..landed] else [], s.clock, l);
    case Append(text, landed) => AppendKeeps(s.dir, Queue(s, text)[..landed], s.clock, l);
    case _ =>
      var p :| l in At(s.dir, p);
      assert l in At(Step(s, e).dir, p);
  }

  lemma GzipKeepsDir(d: Dir, clock: int, src: Place, k: Key, stage: nat)
    requires DirOk(d, clock) && stage <= 4 && SameOrAbsent(d, k, At(d, src))
    requires (src.InBase? && d.base.Some?) || (src == InRaw(k) && k in d.raws)
    requires k.num == DAILY ==> k.day < clock
    ensures DirOk(Gzip(d, src, k, stage), clock)
  {
  }

  lemma StepKeepsDir(s: State, e: Event)
    requires Inv(s) && Enabled(s, e)
    ensures DirOk(Step(s, e).dir, Step(s, e).clock)
  {
    ReplaceIsSafe(s, e);
    match e
    case BootBase(stage) => GzipKeepsDir(s.dir, s.clock, InBase, Key(s.dir.base.value.mtimeDay, DAILY), stage);
    case GzipBase(k, stage) => GzipKeepsDir(s.dir, s.clock, InBase, k, stage);
    case BootRaw(k, stage) => if k !in s.dir.archives { GzipKeepsDir(s.dir, s.clock, InRaw(k), k, stage); }
    case _ =>
  }

  lemma StepKeepsProc(s: State, e: Event)
    requires Inv(s) && Enabled(s, e) && Safe(s, e)
    ensures ProcOk(Step(s, e))
  {
    ReplaceIsSafe(s, e);
    hide Conserved;
  }

  lemma StepKeepsInv(s: State, e: Event)
    requires Inv(s) && Enabled(s, e) && Safe(s, e)
    ensures Inv(Step(s, e))
  {
    StepKeepsDir(s, e);
    StepKeepsProc(s, e);
    var s' := Step(s, e);
    forall l | l in s'.accepted ensures l in s'.pruned || Kept(s'.dir, l) {
      if l in s.accepted {
        StepKeepsLines(s, e, l);
      } else {
        AppendKeeps(s.dir, Queue(s, e.text), s.clock, l);
        assert Queue(s, e.text)[..e.landed] == Queue(s, e.text);
      }
    }
  }

  // ---------------------------------------------------------------- whole runs

  /** No start in the run straddles midnight on a base of its own open date. */
  ghost predicate SafeRun(s: State, es: seq<Event>)
    requires Legal(s, es)
    decreases |es|
  {
    es == [] ||
    (var last := |es| - 1; SafeRun(s, es[..last]) && Safe(Run(s, es[..last]), es[last]))
  }

  /** Over any interleaving of writes, rotations, failures, crashes and restarts, no accepted line
      is lost except to a deliberate prune. */
  lemma {:induction false} NoLineLost(s: State, es: seq<Event>)
    requires Inv(s) && Legal(s, es) && SafeRun(s, es)
    ensures Inv(Run(s, es)) && Conserved(Run(s, es))
    decreases |es|
  {
    if es != [] {
      var last := |es| - 1;
      NoLineLost(s, es[..last]);
      StepKeepsInv(Run(s, es[..last]), es[last]);
    }
  }

  /** In no reachable state does a rename overwrite an archive with different content. */
  lemma NoArchiveOverwritten(s: State, es: seq<Event>, e: Event)
    requires Inv(s) && Legal(s, es) && SafeRun(s, es) && Enabled(Run(s, es), e)
    ensures var at := Run(s, es);
            && (e.GzipBase? && e.k in at.dir.archives ==> at.dir.archives[e.k] == Whole(At(at.dir, InBase)))
            && (e.BootBase? ==>
                  var k := Key(at.dir.base.value.mtimeDay, DAILY);
                  k in at.dir.archives ==> at.dir.archives[k] == Whole(At(at.dir, InBase)))
            && (e.BootRaw? && e.k in at.dir.archives ==> at.dir.archives[e.k] == Whole(At(at.dir, InRaw(e.k))))
  {
    NoLineLost(s, es);
    ReplaceIsSafe(Run(s, es), e);
  }

  // ---------------------------------------------------------------- exactly once

  /** No submission is held twice, by two files, or by a file and the pruned set. */
  ghost predicate Once(s: State) {
    && (forall p, q, i, j :: 0 <= i < |At(s.dir, p)| && 0 <= j < |At(s.dir, q)| && At(s.dir, p)[i] == At(s.dir, q)[j]
          ==> p == q && i == j)
    && (forall p, i :: 0 <= i < |At(s.dir, p)| ==> At(s.dir, p)[i].id < s.next && At(s.dir, p)[i] !in s.pruned)
    && (forall l :: l in s.pruned ==> l.id < s.next)
    && (s.proc.Up? && s.proc.handle.Open? ==> BufferOnce(s, s.proc.handle.buf))
  }

  ghost predicate BufferOnce(s: State, buf: seq<Line>) {
    && (forall i :: 0 <= i < |buf| ==> buf[i].id < s.next && buf[i] !in s.pruned && !Kept(s.dir, buf[i]))
    && (forall i, j :: 0 <= i < |buf| && 0 <= j < |buf| && buf[i] == buf[j] ==> i == j)
  }

  /** The only stop that can duplicate: after the rename, before the source is unlinked. */
  predicate StopsBetweenRenameAndUnlink(e: Event) {
    (e.BootBase? || e.BootRaw? || e.GzipBase?) && e.stage == 3
  }

  /** Moving whole files about keeps every submission in one place. */
  lemma RelabelOnce(s: State, d': Dir, g: Place -> Place)
    requires Once(s)
    requires forall p :: At(d', p) == [] || At(d', p) == At(s.dir, g(p))
    requires forall p, q :: At(d', p) != [] && At(d', q) != [] && g(p) == g(q) ==> p == q
    requires s.proc.Up? ==> !s.proc.handle.Open?
    ensures Once(s.(dir := d'))
  {
    forall p, q, i, j | 0 <= i < |At(d', p)| && 0 <= j < |At(d', q)| && At(d', p)[i] == At(d', q)[j]
      ensures p == q && i == j
    {
      assert At(s.dir, g(p))[i] == At(s.dir, g(q))[j];
    }
    forall p, i | 0 <= i < |At(d', p)| ensures At(d', p)[i].id < s.next && At(d', p)[i] !in s.pruned {
      assert At(d', p)[i] == At(s.dir, g(p))[i];
    }
  }

  lemma MoveOnce(s: State, src: Place, k: Key, stage: nat)
    requires Once(s) && stage <= 4 && stage != 3 && !src.InArchive?
    requires s.proc.Up? ==> !s.proc.handle.Open?
    ensures Once(s.(dir := Gzip(s.dir, src, k, stage)))
  {
    var moved := stage == 4;
    RelabelOnce(s, Gzip(s.dir, src, k, stage), p => if moved && p == InArchive(k) then src else p);
  }

  lemma AppendOnce(s: State, queue: seq<Line>, landed: nat, s': State)
    requires Once(s) && landed <= |queue| && s'.next >= s.next && s'.pruned == s.pruned
    requires BufferOnce(s.(next := s'.next), queue)
    requires s'.dir == AppendBase(s.dir, queue[..landed], s.clock)
    requires s'.proc.Up? && (s'.proc.handle.Open? ==> s'.proc.handle.buf == queue[landed..])
    ensures Once(s')
  {
    forall p ensures At(s'.dir, p) == if p == InBase then At(s.dir, p) + queue[..landed] else At(s.dir, p) {}
    forall i | 0 <= i < |queue| ensures forall p :: queue[i] !in At(s.dir, p) {
      assert !Kept(s.dir, queue[i]);
    }
    BufferStaysOnce(s, queue, landed, s');
  }

  lemma BufferStaysOnce(s: State, queue: seq<Line>, landed: nat, s': State)
    requires landed <= |queue| && s'.next >= s.next && s'.pruned == s.pruned
    requires BufferOnce(s.(next := s'.next), queue)
    requires s'.dir == AppendBase(s.dir, queue[..landed], s.clock)
    ensures BufferOnce(s', queue[landed..])
  {
    var rest := queue[landed..];
    assert forall i :: 0 <= i < |rest| ==> rest[i] == queue[landed + i];
    forall i, p | 0 <= i < |rest| ensures rest[i] !in At(s'.dir, p) {
      assert !Kept(s.dir, queue[landed + i]);
      assert rest[i] !in At(s.dir, p);
    }
  }

  lemma PruneOnce(s: State, k: Key)
    requires Once(s) && Enabled(s, Prune(k))
    ensures Once(Step(s, Prune(k)))
  {
    var s' := Step(s, Prune(k));
    forall p ensures At(s'.dir, p) == if p == InArchive(k) then [] else At(s.dir, p) {}
    if s.proc.Up? && s.proc.handle.Open? {
      forall i | 0 <= i < |s.proc.handle.buf| ensures s.proc.handle.buf[i] !in s'.pruned
          && !Kept(s'.dir, s.proc.handle.buf[i]) {
        assert !Kept(s.dir, s.proc.handle.buf[i]);
      }
    }
  }

  lemma DropRawOnce(s: State, k: Key)
    requires Once(s) && (s.proc.Up? ==> !s.proc.handle.Open?)
    ensures Once(s.(dir := Unlink(s.dir, InRaw(k))))
  {
    RelabelOnce(s, Unlink(s.dir, InRaw(k)), p => p);
  }

  lemma WriteOnce(s: State, text: string, landed: nat)
    requires Inv(s) && Once(s) && Enabled(s, Append(text, landed))
    ensures Once(Step(s, Append(text, landed)))
  {
    forall p ensures Line(s.next, text) !in At(s.dir, p) {}
    AppendOnce(s, Queue(s, text), landed, Step(s, Append(text, landed)));
  }

  lemma CloseOnce(s: State, landed: nat, broken: bool)
    requires Once(s) && Enabled(s, Close(landed, broken)) && s.proc.handle.Open?
    ensures Once(Step(s, Close(landed, broken)))
  {
    AppendOnce(s, s.proc.handle.buf, landed, Step(s, Close(landed, broken)));
  }

  /** A step that leaves every place's lines, and any open buffer, as they were. */
  lemma SameLinesOnce(s: State, s': State)
    requires Once(s) && s'.next == s.next && s'.pruned == s.pruned
    requires forall p :: At(s'.dir, p) == At(s.dir, p)
    requires s'.proc.Up? && s'.proc.handle.Open? ==> s'.proc.handle.buf == [] || s'.proc == s.proc
    ensures Once(s')
  {
    hide At;
    assert forall l :: Kept(s'.dir, l) <==> Kept(s.dir, l);
  }

  lemma StepKeepsOnce(s: State, e: Event)
    requires Inv(s) && Once(s) && Enabled(s, e) && !StopsBetweenRenameAndUnlink(e)
    ensures Once(Step(s, e))
  {
    var s' := Step(s, e);
    ReplaceIsSafe(s, e);
    if e.Append? {
      WriteOnce(s, e.text, e.landed);
      return;
    }
    hide Once, BufferOnce, DirOk, ProcOk, Conserved;
    match e
    case BootBase(stage) => MoveOnce(s, InBase, Key(s.dir.base.value.mtimeDay, DAILY), stage);
    case GzipBase(k, stage) => MoveOnce(s, InBase, k, stage);
    case BootRaw(k, stage) =>
      if k !in s.dir.archives {
        MoveOnce(s, InRaw(k), k, stage);
      } else if stage == 4 {
        DropRawOnce(s, k);
      }
    case Prune(k) => PruneOnce(s, k);
    case Close(landed, broken) =>
      if s.proc.handle.Open? {
        CloseOnce(s, landed, broken);
      } else {
        SameLinesOnce(s, s');
      }
    case _ => SameLinesOnce(s, s');
  }

  /** With no stop between a rename and its unlink, a run duplicates nothing: with NoLineLost, each
      accepted line is at exactly one position of one file, or pruned, and never both. */
  lemma {:induction false} NothingDuplicated(s: State, es: seq<Event>)
    requires Inv(s) && Once(s) && Legal(s, es) && SafeRun(s, es)
    requires forall e :: e in es ==> !StopsBetweenRenameAndUnlink(e)
    ensures Once(Run(s, es))
    decreases |es|
  {
    if es != [] {
      var last := |es| - 1;
      NothingDuplicated(s, es[..last]);
      NoLineLost(s, es[..last]);
      StepKeepsOnce(Run(s, es[..last]), es[last]);
    }
  }

  // ---------------------------------------------------------------- the balance

  /** Nothing is held or pruned that was not accepted, and no line waits in a buffer. */
  ghost predicate Genuine(s: State) {
    && (forall p, l :: l in At(s.dir, p) ==> l in s.accepted)
    && s.pruned <= s.accepted
    && (s.proc.Up? && s.proc.handle.Open? ==> s.proc.handle.buf == [])
  }

  /** A flush that failed, seen from an empty buffer. */
  predicate FlushFailed(e: Event) { e.Append? && e.landed == 0 }

  lemma StepKeepsGenuine(s: State, e: Event)
    requires Genuine(s) && Enabled(s, e) && !FlushFailed(e)
    ensures Genuine(Step(s, e))
  {
    var s' := Step(s, e);
    match e
    case Append(text, landed) =>
      assert Queue(s, text) == [Line(s.next, text)] && Queue(s, text)[..1] == Queue(s, text);
      forall p, l | l in At(s'.dir, p) ensures l in s'.accepted {
        AppendBringsOnly(s.dir, Queue(s, text), s.clock, p, l);
      }
    case Close(landed, broken) =>
      forall p, l | l in At(s'.dir, p) ensures l in s'.accepted { AppendBringsOnly(s.dir, [], s.clock, p, l); }
    case BootBase(stage) =>
      var k := Key(s.dir.base.value.mtimeDay, DAILY);
      forall p, l | l in At(s'.dir, p) ensures l in s'.accepted { GzipBringsOnly(s.dir, InBase, k, stage, p, l); }
    case BootRaw(k, stage) =>
      forall p, l | l in At(s'.dir, p) ensures l in s'.accepted { GzipBringsOnly(s.dir, InRaw(k), k, stage, p, l); }
    case GzipBase(k, stage) =>
      forall p, l | l in At(s'.dir, p) ensures l in s'.accepted { GzipBringsOnly(s.dir, InBase, k, stage, p, l); }
    case _ =>
      forall p, l | l in At(s'.dir, p) ensures l in s'.accepted { assert l in At(s.dir, p); }
  }

  lemma AppendBringsOnly(d: Dir, lines: seq<Line>, day: int, p: Place, l: Line)
    requires l in At(AppendBase(d, lines, day), p)
    ensures l in At(d, p) || l in lines
  {
  }

  lemma GzipBringsOnly(d: Dir, src: Place, k: Key, stage: nat, p: Place, l: Line)
    requires stage <= 4
    ensures l in At(Gzip(d, src, k, stage), p) ==> l in At(d, p) || l in At(d, src)
    ensures src == InRaw(k) && l in At(SettleRaw(d, k, stage), p) ==> l in At(d, p) || l in At(d, src)
  {
  }

  /** Crashes, failed closes and gzips stopped anywhere bring nothing in that was not accepted. */
  lemma {:induction false} NothingInvented(s: State, es: seq<Event>)
    requires Genuine(s) && Legal(s, es)
    requires forall e :: e in es ==> !FlushFailed(e)
    ensures Genuine(Run(s, es))
    decreases |es|
  {
    if es != [] {
      var last := |es| - 1;
      NothingInvented(s, es[..last]);
      StepKeepsGenuine(Run(s, es[..last]), es[last]);
    }
  }

  /** The places that can hold lines. */
  function Places(d: Dir): set<Place> {
    {InBase} + (set k | k in d.archives :: InArchive(k)) + (set k | k in d.raws :: InRaw(k))
  }

  ghost function HeldAt(d: Dir, ps: set<Place>): multiset<Line> {
    if ps == {} then multiset{} else var p :| p in ps; multiset(At(d, p)) + HeldAt(d, ps - {p})
  }

  /** Every copy of every line in the directory. */
  ghost function Held(d: Dir): multiset<Line> { HeldAt(d, Places(d)) }

  lemma {:induction false} HeldSplit(d: Dir, ps: set<Place>, p: Place)
    requires p in ps
    ensures HeldAt(d, ps) == multiset(At(d, p)) + HeldAt(d, ps - {p})
    decreases ps
  {
    var q :| q in ps && HeldAt(d, ps) == multiset(At(d, q)) + HeldAt(d, ps - {q});
    if q != p {
      hide At;
      HeldSplit(d, ps - {q}, p);
      HeldSplit(d, ps - {p}, q);
      assert ps - {q} - {p} == ps - {p} - {q};
    }
  }

  lemma {:induction false} HeldIn(d: Dir, ps: set<Place>, l: Line)
    ensures l in HeldAt(d, ps) <==> exists p :: p in ps && l in At(d, p)
    decreases ps
  {
    if ps != {} {
      var p :| p in ps;
      hide At;
      HeldSplit(d, ps, p);
      HeldIn(d, ps - {p}, l);
      assert l in multiset(At(d, p)) <==> l in At(d, p);
    }
  }

  lemma {:induction false} CountOnce(lines: seq<Line>, l: Line)
    requires forall i, j :: 0 <= i < |lines| && 0 <= j < |lines| && lines[i] == lines[j] ==> i == j
    ensures multiset(lines)[l] <= 1
    decreases |lines|
  {
    if lines != [] {
      CountOnce(lines[1..], l);
      assert lines == [lines[0]] + lines[1..];
      assert lines[0] !in lines[1..];
    }
  }

  lemma {:induction false} HeldOnce(s: State, ps: set<Place>, l: Line)
    requires Once(s)
    ensures HeldAt(s.dir, ps)[l] <= 1
    decreases ps
  {
    if p :| p in ps && l in At(s.dir, p) {
      HeldSplit(s.dir, ps, p);
      OnlyThere(s, p, l);
      hide At, Once;
      CountOnce(At(s.dir, p), l);
      HeldIn(s.dir, ps - {p}, l);
    } else {
      HeldIn(s.dir, ps, l);
    }
  }

  lemma OnlyThere(s: State, p: Place, l: Line)
    requires Once(s) && l in At(s.dir, p)
    ensures forall q :: l in At(s.dir, q) ==> q == p
    ensures var lines := At(s.dir, p);
            forall i, j :: 0 <= i < |lines| && 0 <= j < |lines| && lines[i] == lines[j] ==> i == j
    ensures l !in s.pruned
  {
    hide At;
    var i :| 0 <= i < |At(s.dir, p)| && At(s.dir, p)[i] == l;
  }

  lemma HeldIsKept(d: Dir, l: Line)
    ensures l in Held(d) <==> Kept(d, l)
  {
    HeldIn(d, Places(d), l);
    forall p | l in At(d, p) ensures p in Places(d) {}
  }

  lemma Balances(s: State)
    requires Conserved(s) && Once(s) && Genuine(s)
    ensures Held(s.dir) + multiset(s.pruned) == multiset(s.accepted)
  {
    forall l ensures (Held(s.dir) + multiset(s.pruned))[l] == multiset(s.accepted)[l] {
      HeldIsKept(s.dir, l);
      HeldOnce(s, Places(s.dir), l);
      if p :| l in At(s.dir, p) { OnlyThere(s, p, l); }
    }
  }

  /** With no failed flush and no stop between a rename and its unlink, whatever else fails or crashes,
      the lines held and pruned are exactly the lines accepted, each once. */
  lemma RunBalances(s: State, es: seq<Event>)
    requires Inv(s) && Once(s) && Genuine(s) && Legal(s, es) && SafeRun(s, es)
    requires forall e :: e in es ==> !FlushFailed(e) && !StopsBetweenRenameAndUnlink(e)
    ensures var r := Run(s, es); Held(r.dir) + multiset(r.pruned) == multiset(r.accepted)
  {
    NoLineLost(s, es);
    NothingDuplicated(s, es);
    NothingInvented(s, es);
    Balances(Run(s, es));
  }

  /** With gzips stopped anywhere, lines may only be held more than once: none is missing and none is new. */
  lemma StopsOnlyDuplicate(s: State, es: seq<Event>)
    requires Inv(s) && Genuine(s) && Legal(s, es) && SafeRun(s, es)
    requires forall e :: e in es ==> !FlushFailed(e)
    ensures var r := Run(s, es);
            && multiset(r.accepted) <= Held(r.dir) + multiset(r.pruned)
            && forall l :: l in Held(r.dir) + multiset(r.pruned) ==> l in r.accepted
  {
    var r := Run(s, es);
    NoLineLost(s, es);
    NothingInvented(s, es);
    hide Inv, Legal, Run, SafeRun;
    forall l ensures multiset(r.accepted)[l] <= (Held(r.dir) + multiset(r.pruned))[l]
             ensures l in Held(r.dir) + multiset(r.pruned) ==> l in r.accepted
    {
      HeldIsKept(r.dir, l);
    }
  }

  /** A first start on an empty directory is covered. */
  lemma FreshStateIsSound(day: int)
    ensures var s := State(Dir(None, map[], map[], map[], map[]), Down, day, 0, {}, {});
            Inv(s) && Once(s) && Genuine(s) && InOrder(s)
  {
  }

  // ---------------------------------------------------------------- the order of lines

  ghost predicate Ascends(lines: seq<Line>, next: nat) {
    && (forall i, j :: 0 <= i < j < |lines| ==> lines[i].id < lines[j].id)
    && (forall i :: 0 <= i < |lines| ==> lines[i].id < next)
  }

  /** In every file the lines stand in the order they were submitted, and so do those that wait in the
      buffer, behind those of the base. */
  ghost predicate InOrder(s: State) {
    && (forall p :: Ascends(At(s.dir, p), s.next))
    && (s.proc.Up? && s.proc.handle.Open? ==> Ascends(At(s.dir, InBase) + s.proc.handle.buf, s.next))
  }

  lemma AscendingParts(a: seq<Line>, b: seq<Line>, next: nat)
    requires Ascends(a + b, next)
    ensures Ascends(a, next) && Ascends(b, next)
  {
    assert forall i :: 0 <= i < |a| ==> (a + b)[i] == a[i];
    assert forall i :: 0 <= i < |b| ==> (a + b)[|a| + i] == b[i];
  }

  lemma AscendingSnoc(lines: seq<Line>, l: Line, next: nat)
    requires Ascends(lines, next) && l.id == next
    ensures Ascends(lines + [l], next + 1)
  {
  }

  lemma AscendsOn(lines: seq<Line>, next: nat, next': nat)
    requires Ascends(lines, next) && next <= next'
    ensures Ascends(lines, next')
  {
  }

  /** The first `landed` of the queue reach the base, the rest may stay behind. */
  lemma AppendInOrder(d: Dir, queue: seq<Line>, landed: nat, day: int, next: nat)
    requires landed <= |queue| && Ascends(At(d, InBase) + queue, next)
    requires forall p :: Ascends(At(d, p), next)
    ensures var d' := AppendBase(d, queue[..landed], day);
            && (forall p :: Ascends(At(d', p), next)) && Ascends(At(d', InBase) + queue[landed..], next)
  {
    var d' := AppendBase(d, queue[..landed], day);
    var base := At(d, InBase);
    assert At(d', InBase) == base + queue[..landed];
    assert base + queue[..landed] + queue[landed..] == base + queue;
    AscendingParts(base + queue[..landed], queue[landed..], next);
    forall p ensures Ascends(At(d', p), next) {
      assert p != InBase ==> At(d', p) == At(d, p);
    }
  }

  lemma GzipMoves(d: Dir, src: Place, k: Key, stage: nat, p: Place)
    requires stage <= 4
    ensures At(Gzip(d, src, k, stage), p) in {[], At(d, p), At(d, src)}
    ensures src == InRaw(k) ==> At(SettleRaw(d, k, stage), p) in {[], At(d, p), At(d, src)}
  {
  }

  lemma GzipInOrder(d: Dir, src: Place, k: Key, stage: nat, next: nat)
    requires stage <= 4 && forall p :: Ascends(At(d, p), next)
    ensures forall p :: Ascends(At(Gzip(d, src, k, stage), p), next)
    ensures src == InRaw(k) ==> forall p :: Ascends(At(SettleRaw(d, k, stage), p), next)
  {
    forall p ensures Ascends(At(Gzip(d, src, k, stage), p), next)
             ensures src == InRaw(k) ==> Ascends(At(SettleRaw(d, k, stage), p), next)
    {
      GzipMoves(d, src, k, stage, p);
      hide At, Gzip, SettleRaw;
    }
  }

  lemma AppendKeepsOrder(s: State, text: string, landed: nat)
    requires InOrder(s) && Enabled(s, Append(text, landed))
    ensures InOrder(Step(s, Append(text, landed)))
  {
    hide At, Ascends, AppendBase;
    var queue, base := Queue(s, text), At(s.dir, InBase);
    AscendingSnoc(base + s.proc.handle.buf, Line(s.next, text), s.next);
    assert base + s.proc.handle.buf + [Line(s.next, text)] == base + queue;
    forall p ensures Ascends(At(s.dir, p), s.next + 1) { AscendsOn(At(s.dir, p), s.next, s.next + 1); }
    AppendInOrder(s.dir, queue, landed, s.clock, s.next + 1);
  }

  lemma CloseKeepsOrder(s: State, landed: nat, broken: bool)
    requires InOrder(s) && Enabled(s, Close(landed, broken))
    ensures InOrder(Step(s, Close(landed, broken)))
  {
    hide At, Ascends;
    if s.proc.handle.Open? { AppendInOrder(s.dir, s.proc.handle.buf, landed, s.clock, s.next); }
  }

  lemma StepKeepsOrder(s: State, e: Event)
    requires InOrder(s) && Enabled(s, e)
    ensures InOrder(Step(s, e))
  {
    hide At, Ascends, Gzip, SettleRaw, IsNextSeq, Queue;
    match e
    case Append(text, landed) => AppendKeepsOrder(s, text, landed);
    case Close(landed, broken) => CloseKeepsOrder(s, landed, broken);
    case BootBase(stage) => GzipInOrder(s.dir, InBase, Key(s.dir.base.value.mtimeDay, DAILY), stage, s.next);
    case BootRaw(k, stage) => GzipInOrder(s.dir, InRaw(k), k, stage, s.next);
    case GzipBase(k, stage) => GzipInOrder(s.dir, InBase, k, stage, s.next);
    case _ => OtherKeepsOrder(s, e);
  }

  lemma OtherKeepsOrder(s: State, e: Event)
    requires InOrder(s) && Enabled(s, e)
    requires !e.Append? && !e.Close? && !e.BootBase? && !e.BootRaw? && !e.GzipBase?
    ensures InOrder(Step(s, e))
  {
    var s' := Step(s, e);
    assert s'.next == s.next;
    assert s'.proc.Up? && s'.proc.handle.Open? ==> s'.proc == s.proc || s'.proc.handle.buf == [];
    forall p ensures At(s'.dir, p) in {[], At(s.dir, p)} && (!e.Prune? ==> At(s'.dir, p) == At(s.dir, p)) {}
    assert At(s'.dir, InBase) == At(s.dir, InBase);
    hide At, Step, Enabled;
    assert Ascends([], s.next);
    assert At(s.dir, InBase) + [] == At(s.dir, InBase);
  }

  /** Over any run, whatever fails or crashes, no file's lines are ever out of order. */
  lemma {:induction false} AlwaysInOrder(s: State, es: seq<Event>)
    requires InOrder(s) && Legal(s, es)
    ensures InOrder(Run(s, es))
    decreases |es|
  {
    if es != [] {
      var last := |es| - 1;
      AlwaysInOrder(s, es[..last]);
      StepKeepsOrder(Run(s, es[..last]), es[last]);
    }
  }

  // ---------------------------------------------------------------- what any start keeps

  /** What holds in every run, safe or not. */
  ghost predicate Framed(s: State) {
    && (match s.proc
        case Down => true
        case Booting(o) => o <= s.clock
        case Up(o, h) => o <= s.clock && s.dir.raws == map[] && (h.Open? ==> s.dir.base.Some?))
    && (forall k :: (k in s.dir.archives || k in s.dir.raws) && k.num == DAILY ==> k.day < s.clock)
    && (s.dir.base.Some? ==> s.dir.base.value.mtimeDay <= s.clock)
    && (forall l :: l in s.accepted ==> l.id < s.next)
  }

  lemma StepKeepsFramed(s: State, e: Event)
    requires Framed(s) && Enabled(s, e)
    ensures Framed(Step(s, e))
  {
  }

  lemma {:induction false} AlwaysFramed(s: State, es: seq<Event>)
    requires Inv(s) && Legal(s, es)
    ensures Framed(Run(s, es))
    decreases |es|
  {
    if es != [] {
      var last := |es| - 1;
      AlwaysFramed(s, es[..last]);
      StepKeepsFramed(Run(s, es[..last]), es[last]);
    }
  }
}
