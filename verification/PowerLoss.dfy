/** Power-loss ordering of one atomic gzip.

    Directory operations reach the disk at the next fsync of the directory; before that, a power loss
    may keep any of them and lose the others, each on its own.  File data is durable once fsynced. */
module PowerLoss {

  datatype Op = Bind(name: string, ino: nat) | Move(src: string, dst: string, ino: nat) | Remove(name: string)

  /** `synced` holds the inodes whose complete content is on disk. */
  datatype Disk = Disk(durable: map<string, nat>, pending: seq<Op>, synced: set<nat>)

  predicate Touches(op: Op, name: string) {
    match op
    case Bind(n, _) => n == name
    case Move(src, dst, _) => src == name || dst == name
    case Remove(n) => n == name
  }

  function ApplyOp(d: map<string, nat>, op: Op): map<string, nat> {
    match op
    case Bind(n, ino) => d[n := ino]
    case Move(src, dst, ino) => (d - {src})[dst := ino]
    case Remove(n) => d - {n}
  }

  function Apply(d: map<string, nat>, ops: seq<Op>): map<string, nat> {
    if ops == [] then d else ApplyOp(Apply(d, ops[..|ops| - 1]), ops[|ops| - 1])
  }

  /** `kept` is what some power loss leaves of `ops`: any of them, in their order. */
  ghost predicate Survives(kept: seq<Op>, ops: seq<Op>)
    decreases |ops|
  {
    if ops == [] then kept == []
    else
      var last := |ops| - 1;
      Survives(kept, ops[..last])
      || (kept != [] && kept[|kept| - 1] == ops[last] && Survives(kept[..|kept| - 1], ops[..last]))
  }

  /** The eight system calls of `_atomic_gzip` in order, on a source, tmp and final name; `ino` is
      the tmp's inode.  Creating and writing the tmp leave it unsynced. */
  function After(d: Disk, source: string, tmp: string, final: string, ino: nat, calls: nat): Disk
    requires calls <= 7
  {
    if calls == 0 then d
    else
      var x := After(d, source, tmp, final, ino, calls - 1);
      match calls
      case 1 => x.(pending := x.pending + [Bind(tmp, ino)])              // open the tmp
      case 2 => x                                                       // write and close it
      case 3 => x.(synced := x.synced + {ino})                           // fsync it
      case 4 => x.(pending := x.pending + [Move(tmp, final, ino)])       // replace
      case 5 => x.(durable := Apply(x.durable, x.pending), pending := []) // fsync the directory
      case 6 => x.(pending := x.pending + [Remove(source)])              // unlink the source
      case _ => x.(durable := Apply(x.durable, x.pending), pending := []) // fsync the directory
  }

  ghost predicate Ready(d: Disk, source: string, tmp: string, final: string, ino: nat) {
    && source != tmp && source != final && tmp != final
    && source in d.durable && ino !in d.synced
    && (final in d.durable ==> d.durable[final] in d.synced)
    && (forall op :: op in d.pending ==> !Touches(op, source) && !Touches(op, tmp) && !Touches(op, final))
  }

  lemma {:induction false} SurvivorsAreSubset(kept: seq<Op>, ops: seq<Op>)
    requires Survives(kept, ops)
    ensures forall op :: op in kept ==> op in ops
    decreases |ops|
  {
    if ops != [] {
      var last := |ops| - 1;
      if Survives(kept, ops[..last]) {
        SurvivorsAreSubset(kept, ops[..last]);
      } else {
        SurvivorsAreSubset(kept[..|kept| - 1], ops[..last]);
        assert forall op :: op in kept ==> op in kept[..|kept| - 1] || op == ops[last];
        assert ops[last] in ops;
      }
    }
  }

  /** A name no operation touches keeps its binding. */
  lemma {:induction false} Untouched(d: map<string, nat>, ops: seq<Op>, name: string)
    requires forall op :: op in ops ==> !Touches(op, name)
    ensures name in Apply(d, ops) <==> name in d
    ensures name in d ==> Apply(d, ops)[name] == d[name]
    decreases |ops|
  {
    if ops != [] {
      assert ops[|ops| - 1] in ops;
      Untouched(d, ops[..|ops| - 1], name);
    }
  }

  /** A name only ever moved onto from one inode is bound to that inode or as before. */
  lemma {:induction false} OnlyMovedOnto(d: map<string, nat>, ops: seq<Op>, name: string, move: Op)
    requires move.Move? && move.dst == name && move.src != name
    requires forall op :: op in ops && Touches(op, name) ==> op == move
    ensures name in Apply(d, ops) ==>
              (Apply(d, ops)[name] == move.ino && move in ops) || (name in d && Apply(d, ops)[name] == d[name])
    decreases |ops|
  {
    if ops != [] {
      var last := |ops| - 1;
      assert ops[last] in ops;
      OnlyMovedOnto(d, ops[..last], name, move);
    }
  }

  /** Up to the directory fsync nothing more is durable, and the pending operations are these. */
  lemma BeforeFsync(d: Disk, source: string, tmp: string, final: string, ino: nat, calls: nat)
    requires calls <= 4
    ensures var x := After(d, source, tmp, final, ino, calls);
            && x.durable == d.durable && x.synced == (if calls >= 3 then d.synced + {ino} else d.synced)
            && x.pending == d.pending + (if calls == 0 then [] else if calls < 4 then [Bind(tmp, ino)]
                                         else [Bind(tmp, ino), Move(tmp, final, ino)])
  {
    if calls > 0 { BeforeFsync(d, source, tmp, final, ino, calls - 1); }
    assert [Bind(tmp, ino)] + [Move(tmp, final, ino)] == [Bind(tmp, ino), Move(tmp, final, ino)];
  }

  /** The last operation of a list has the last word on the names it binds. */
  lemma MovedLast(d: map<string, nat>, ops: seq<Op>, src: string, dst: string, ino: nat)
    ensures var m := Apply(d, ops + [Move(src, dst, ino)]); dst in m && m[dst] == ino
  {
    assert (ops + [Move(src, dst, ino)])[..|ops|] == ops;
  }

  /** From that fsync on the final name is bound to the new file, and only the source may still go. */
  lemma AfterFsync(d: Disk, source: string, tmp: string, final: string, ino: nat, calls: nat)
    requires 5 <= calls <= 7 && source != final
    ensures var x := After(d, source, tmp, final, ino, calls);
            && final in x.durable && x.durable[final] == ino && x.synced == d.synced + {ino}
            && x.pending == if calls == 6 then [Remove(source)] else []
  {
    if calls == 5 {
      BeforeFsync(d, source, tmp, final, ino, 4);
      var before := d.pending + [Bind(tmp, ino)];
      assert d.pending + [Bind(tmp, ino), Move(tmp, final, ino)] == before + [Move(tmp, final, ino)];
      MovedLast(d.durable, before, tmp, final, ino);
    } else {
      AfterFsync(d, source, tmp, final, ino, calls - 1);
      var x := After(d, source, tmp, final, ino, calls - 1);
      Untouched(x.durable, x.pending, final);
    }
  }

  /** At every point of the gzip, whatever subset of the directory operations not yet fsynced a power
      loss takes, the source is still bound to its own file or the final name to the complete,
      fsynced gzip; and a bound final name never holds a partial one. */
  lemma NothingIsLostToPower(d: Disk, source: string, tmp: string, final: string, ino: nat, calls: nat, kept: seq<Op>)
    requires Ready(d, source, tmp, final, ino) && calls <= 7
    requires Survives(kept, After(d, source, tmp, final, ino, calls).pending)
    ensures var x := After(d, source, tmp, final, ino, calls);
            var left := Apply(x.durable, kept);
            && ((source in left && left[source] == d.durable[source])
                || (final in left && left[final] == ino && ino in x.synced))
            && (final in left ==> left[final] in x.synced)
  {
    var x := After(d, source, tmp, final, ino, calls);
    SurvivorsAreSubset(kept, x.pending);
    assert source != final;
    if calls <= 4 {
      hide *;
      BeforeFsync(d, source, tmp, final, ino, calls);
      LostBeforeFsync(d, source, tmp, final, ino, calls, kept);
    } else {
      hide After, Apply, Survives, Ready;
      AfterFsync(d, source, tmp, final, ino, calls);
      Untouched(x.durable, kept, final);
    }
  }

  lemma LostBeforeFsync(d: Disk, source: string, tmp: string, final: string, ino: nat, calls: nat, kept: seq<Op>)
    requires Ready(d, source, tmp, final, ino)
    requires forall op :: op in kept ==>
               op in d.pending || op == Bind(tmp, ino) || (calls == 4 && op == Move(tmp, final, ino))
    ensures var left := Apply(d.durable, kept);
            && source in left && left[source] == d.durable[source]
            && (final in left ==> (calls == 4 && left[final] == ino) || left[final] in d.synced)
  {
    hide Apply;
    Untouched(d.durable, kept, source);
    OnlyMovedOnto(d.durable, kept, final, Move(tmp, final, ino));
  }

  /** Unlinking before the directory fsync would not do: a power loss could then take the rename and
      keep the unlink. */
  lemma UnlinkBeforeFsyncLoses(d: Disk, source: string, tmp: string, final: string, ino: nat)
    requires Ready(d, source, tmp, final, ino) && final !in d.durable && d.pending == []
    ensures var x := After(d, source, tmp, final, ino, 4);
            var early := x.(pending := x.pending + [Remove(source)]);
            && Survives([Remove(source)], early.pending)
            && source !in Apply(early.durable, [Remove(source)]) && final !in Apply(early.durable, [Remove(source)])
  {
    var b, m, r := Bind(tmp, ino), Move(tmp, final, ino), Remove(source);
    BeforeFsync(d, source, tmp, final, ino, 4);
    var early := After(d, source, tmp, final, ino, 4).pending + [r];
    assert early == [b, m, r];
    OnlyTheLastSurvives(b, m, r);
    assert Apply(d.durable, [r]) == d.durable - {source} by { assert [r][..0] == []; }
    assert Survives([r], early);
  }

  lemma OnlyTheLastSurvives(b: Op, m: Op, r: Op)
    ensures Survives([r], [b, m, r])
  {
    assert [b, m, r][..2] == [b, m] && [b, m][..1] == [b] && [b][..0] == [] && [r][..0] == [];
    assert Survives([], [b]);
    assert Survives([], [b, m]);
  }
}
