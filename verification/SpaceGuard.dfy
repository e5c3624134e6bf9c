/** The ring buffer's order, its victims and its two limits. */
module SpaceGuard {
  import opened Common
  import opened StorageMachine

  // ---------------------------------------------------------------- key order

  /** `_segment_sort_key`: by date, and within a date the daily archive before every segment. */
  predicate Before(a: Key, b: Key) {
    a.day < b.day || (a.day == b.day && a.num < b.num)
  }

  ghost predicate IsOldest(ks: set<Key>, k: Key) {
    k in ks && forall x :: x in ks && x != k ==> Before(k, x)
  }

  lemma {:induction false} OldestExists(ks: set<Key>)
    requires ks != {}
    ensures exists k :: IsOldest(ks, k)
    decreases ks
  {
    var x :| x in ks;
    if ks == {x} {
      assert IsOldest(ks, x);
    } else {
      OldestExists(ks - {x});
      var k :| IsOldest(ks - {x}, k);
      var m := if Before(x, k) then x else k;
      forall y | y in ks && y != m ensures Before(m, y) {
        assert y == x || y in ks - {x};
      }
      assert IsOldest(ks, m);
    }
  }

  ghost function Oldest(ks: set<Key>): Key
    requires ks != {}
  {
    OldestExists(ks);
    var k :| IsOldest(ks, k);
    k
  }

  /** The first n keys in key order, or all of them. */
  ghost function Victims(ks: set<Key>, n: nat): set<Key>
    decreases n
  {
    if n == 0 || ks == {} then {} else {Oldest(ks)} + Victims(ks - {Oldest(ks)}, n - 1)
  }

  ghost predicate IsPrefix(ks: set<Key>, vs: set<Key>) {
    vs <= ks && forall v, x :: v in vs && x in ks - vs ==> Before(v, x)
  }

  lemma {:induction false} VictimsArePrefix(ks: set<Key>, n: nat)
    ensures IsPrefix(ks, Victims(ks, n))
    ensures |Victims(ks, n)| == if n <= |ks| then n else |ks|
    decreases n
  {
    if n > 0 && ks != {} {
      var k := Oldest(ks);
      OldestExists(ks);
      VictimsArePrefix(ks - {k}, n - 1);
      assert |ks - {k}| == |ks| - 1;
    }
  }

  /** By date and, within a day, by number, the bare daily archive ahead of every segment. */
  ghost predicate NoneLeftOlder(gone: set<Key>, left: set<Key>) {
    forall v, x :: v in gone && x in left ==>
      && (v.day < x.day || (v.day == x.day && v.num < x.num))
      && (v.day == x.day && v.num >= 1 ==> x.num != DAILY)
  }

  /** The first n archives, or all of them: none that is left is older than one of them. */
  lemma VictimsAreOldest(ks: set<Key>, n: nat)
    ensures NoneLeftOlder(Victims(ks, n), ks - Victims(ks, n))
    ensures Victims(ks, n) <= ks && |Victims(ks, n)| == if n <= |ks| then n else |ks|
  {
    VictimsArePrefix(ks, n);
    hide Victims;
  }

  /** A down-closed set of keys is determined by its size. */
  lemma {:induction false} PrefixIsVictims(ks: set<Key>, vs: set<Key>)
    requires IsPrefix(ks, vs)
    ensures vs == Victims(ks, |vs|)
    decreases |vs|
  {
    if vs != {} {
      OldestExists(ks);
      var k := Oldest(ks);
      var v :| v in vs;
      assert v != k ==> !Before(v, k);
      assert k in vs;
      PrefixIsVictims(ks - {k}, vs - {k});
      assert |vs - {k}| == |vs| - 1;
      assert vs == {k} + (vs - {k});
    }
  }

  /** Deleting the oldest of what is left extends the prefix by one. */
  lemma NextVictim(ks: set<Key>, n: nat, k: Key)
    requires n < |ks| && IsOldest(ks - Victims(ks, n), k)
    ensures Victims(ks, n + 1) == Victims(ks, n) + {k}
  {
    VictimsArePrefix(ks, n);
    var vs := Victims(ks, n) + {k};
    assert |vs| == n + 1;
    assert IsPrefix(ks, vs);
    PrefixIsVictims(ks, vs);
  }

  // ---------------------------------------------------------------- bytes

  /** File sizes as arbitrary functions of content: compression is not modelled. */
  datatype Sizes = Sizes(text: seq<Line> -> nat, gz: Gz -> nat)

  datatype Name = Base | Archive(k: Key) | Raw(k: Key) | Tmp(k: Key) | Other(name: string)

  function Names(d: Dir): set<Name> {
    (if d.base.Some? then {Base} else {})
    + (set k | k in d.archives :: Archive(k)) + (set k | k in d.raws :: Raw(k))
    + (set k | k in d.tmps :: Tmp(k)) + (set n | n in d.others :: Other(n))
  }

  function SizeOf(d: Dir, sz: Sizes, n: Name): nat
    requires n in Names(d)
  {
    match n
    case Base => sz.text(d.base.value.lines)
    case Archive(k) => sz.gz(d.archives[k])
    case Raw(k) => sz.text(d.raws[k])
    case Tmp(k) => sz.gz(d.tmps[k])
    case Other(name) => d.others[name]
  }

  ghost function Sum(d: Dir, sz: Sizes, ns: set<Name>): nat
    requires ns <= Names(d)
  {
    if ns == {} then 0 else var n :| n in ns; SizeOf(d, sz, n) + Sum(d, sz, ns - {n})
  }

  lemma {:induction false} SumSplit(d: Dir, sz: Sizes, ns: set<Name>, n: Name)
    requires ns <= Names(d) && n in ns
    ensures Sum(d, sz, ns) == SizeOf(d, sz, n) + Sum(d, sz, ns - {n})
    decreases ns
  {
    var m :| m in ns && Sum(d, sz, ns) == SizeOf(d, sz, m) + Sum(d, sz, ns - {m});
    if m != n {
      hide Names, SizeOf;
      SumSplit(d, sz, ns - {m}, n);
      SumSplit(d, sz, ns - {n}, m);
      assert ns - {m} - {n} == ns - {n} - {m};
    }
  }

  /** The log directory's weight: the sizes of the regular files in it. */
  ghost function DirBytes(d: Dir, sz: Sizes): nat { Sum(d, sz, Names(d)) }

  lemma {:induction false} SumFrame(d: Dir, d': Dir, sz: Sizes, ns: set<Name>)
    requires ns <= Names(d) && ns <= Names(d')
    requires forall n :: n in ns ==> SizeOf(d, sz, n) == SizeOf(d', sz, n)
    ensures Sum(d, sz, ns) == Sum(d', sz, ns)
    decreases ns
  {
    if ns != {} {
      var n :| n in ns;
      SumSplit(d, sz, ns, n);
      SumSplit(d', sz, ns, n);
      SumFrame(d, d', sz, ns - {n});
    }
  }

  lemma NamesAfterPrune(d: Dir, sz: Sizes, k: Key)
    requires k in d.archives
    ensures var d' := Unlink(d, InArchive(k));
            && Archive(k) in Names(d) && SizeOf(d, sz, Archive(k)) == sz.gz(d.archives[k])
            && Names(d') == Names(d) - {Archive(k)}
            && forall n :: n in Names(d') ==> SizeOf(d, sz, n) == SizeOf(d', sz, n)
  {
  }

  /** Deleting an archive lowers the weight by exactly that archive's size. */
  lemma PruneFrees(d: Dir, sz: Sizes, k: Key)
    requires k in d.archives
    ensures DirBytes(d, sz) == sz.gz(d.archives[k]) + DirBytes(Unlink(d, InArchive(k)), sz)
  {
    var d' := Unlink(d, InArchive(k));
    NamesAfterPrune(d, sz, k);
    hide Names, SizeOf, Unlink;
    SumSplit(d, sz, Names(d), Archive(k));
    SumFrame(d, d', sz, Names(d'));
  }

  lemma WeighsOne(d: Dir, d': Dir, sz: Sizes, n: Name)
    requires n in Names(d) && Names(d') == Names(d) - {n}
    requires forall m :: m in Names(d') ==> SizeOf(d, sz, m) == SizeOf(d', sz, m)
    ensures DirBytes(d, sz) == SizeOf(d, sz, n) + DirBytes(d', sz)
  {
    hide Names, SizeOf;
    SumSplit(d, sz, Names(d), n);
    SumFrame(d, d', sz, Names(d'));
  }

  /** The weight counts the base, every orphan, every partial, every archive and every other file at its
      own size, and nothing else. */
  lemma WeightIs(d: Dir, sz: Sizes, k: Key, name: string)
    ensures DirBytes(Dir(None, map[], map[], map[], map[]), sz) == 0
    ensures d.base.Some? ==> DirBytes(d, sz) == sz.text(d.base.value.lines) + DirBytes(d.(base := None), sz)
    ensures k in d.archives ==>
              DirBytes(d, sz) == sz.gz(d.archives[k]) + DirBytes(d.(archives := d.archives - {k}), sz)
    ensures k in d.raws ==> DirBytes(d, sz) == sz.text(d.raws[k]) + DirBytes(d.(raws := d.raws - {k}), sz)
    ensures k in d.tmps ==> DirBytes(d, sz) == sz.gz(d.tmps[k]) + DirBytes(d.(tmps := d.tmps - {k}), sz)
    ensures name in d.others ==> DirBytes(d, sz) == d.others[name] + DirBytes(d.(others := d.others - {name}), sz)
  {
    assert Names(Dir(None, map[], map[], map[], map[])) == {};
    assert Unlink(d, InArchive(k)) == d.(archives := d.archives - {k});
    assert DirBytes(Dir(None, map[], map[], map[], map[]), sz) == 0;
    hide *;
    if d.base.Some? { BaseWeighs(d, sz); }
    if k in d.archives { PruneFrees(d, sz, k); }
    if k in d.raws { RawWeighs(d, sz, k); }
    if k in d.tmps { TmpWeighs(d, sz, k); }
    if name in d.others { OtherWeighs(d, sz, name); }
  }

  lemma BaseWeighs(d: Dir, sz: Sizes)
    requires d.base.Some?
    ensures DirBytes(d, sz) == sz.text(d.base.value.lines) + DirBytes(d.(base := None), sz)
  {
    var d' := d.(base := None);
    assert Names(d') == Names(d) - {Base};
    WeighsOne(d, d', sz, Base);
  }

  lemma RawWeighs(d: Dir, sz: Sizes, k: Key)
    requires k in d.raws
    ensures DirBytes(d, sz) == sz.text(d.raws[k]) + DirBytes(d.(raws := d.raws - {k}), sz)
  {
    var d' := d.(raws := d.raws - {k});
    assert Raw(k) in Names(d) && Names(d') == Names(d) - {Raw(k)};
    WeighsOne(d, d', sz, Raw(k));
  }

  lemma TmpWeighs(d: Dir, sz: Sizes, k: Key)
    requires k in d.tmps
    ensures DirBytes(d, sz) == sz.gz(d.tmps[k]) + DirBytes(d.(tmps := d.tmps - {k}), sz)
  {
    var d' := d.(tmps := d.tmps - {k});
    assert Tmp(k) in Names(d) && Names(d') == Names(d) - {Tmp(k)};
    WeighsOne(d, d', sz, Tmp(k));
  }

  lemma OtherWeighs(d: Dir, sz: Sizes, name: string)
    requires name in d.others
    ensures DirBytes(d, sz) == d.others[name] + DirBytes(d.(others := d.others - {name}), sz)
  {
    var d' := d.(others := d.others - {name});
    assert Other(name) in Names(d) && Names(d') == Names(d) - {Other(name)};
    WeighsOne(d, d', sz, Other(name));
  }

  // ---------------------------------------------------------------- limits

  predicate NeedFree(minFree: nat, total: nat, free: nat) {
    minFree > 0 && free < total * minFree / 100
  }

  predicate OverCap(maxLog: nat, total: nat, weight: nat) {
    maxLog > 0 && weight > total * maxLog / 100
  }

  predicate OverBudget(minFree: nat, maxLog: nat, total: nat, free: nat, weight: nat) {
    NeedFree(minFree, total, free) || OverCap(maxLog, total, weight)
  }

  /** The integer tests mean the percentages, to within one percent-unit of rounding. */
  lemma LimitsMean(minFree: nat, maxLog: nat, total: nat, free: nat, weight: nat)
    ensures OverCap(maxLog, total, weight) <==> maxLog > 0 && 100 * weight > total * maxLog
    ensures NeedFree(minFree, total, free) <==> minFree > 0 && 100 * free <= total * minFree - 100
  {
    var a, b := total * maxLog, total * minFree;
    assert a == 100 * (a / 100) + a % 100 && b == 100 * (b / 100) + b % 100;
  }

  /** Both limits in percentages: the free space is above the floor, to within one percent-unit of
      rounding, and the directory is not above the cap. */
  predicate LimitsHold(minFree: nat, maxLog: nat, total: nat, free: nat, weight: nat) {
    && (minFree > 0 ==> 100 * free > total * minFree - 100)
    && (maxLog > 0 ==> 100 * weight <= total * maxLog)
  }

  lemma OverBudgetMeans(minFree: nat, maxLog: nat, total: nat, free: nat, weight: nat)
    ensures OverBudget(minFree, maxLog, total, free, weight) <==> !LimitsHold(minFree, maxLog, total, free, weight)
  {
    LimitsMean(minFree, maxLog, total, free, weight);
    hide NeedFree, OverCap;
  }

  /** The archives left after dropping the n oldest. */
  ghost function Dropped(d: Dir, n: nat): Dir {
    d.(archives := d.archives - Victims(d.archives.Keys, n))
  }

  lemma DropNext(d: Dir, n: nat, k: Key)
    requires IsOldest(Dropped(d, n).archives.Keys, k)
    ensures Dropped(d, n + 1) == Unlink(Dropped(d, n), InArchive(k))
  {
    var ks := d.archives.Keys;
    VictimsArePrefix(ks, n);
    assert Dropped(d, n).archives.Keys == ks - Victims(ks, n);
    if n >= |ks| {
      PrefixIsVictims(ks, ks);
      SubsetSameSize(Victims(ks, n), ks);
      assert false;
    }
    NextVictim(ks, n, k);
  }

  lemma {:induction false} SubsetSameSize(a: set<Key>, b: set<Key>)
    requires a <= b && |a| == |b|
    ensures a == b
  {
    if !(b <= a) {
      var x :| x in b && x !in a;
      assert |b - {x}| == |b| - 1;
      SubsetSize(a, b - {x});
    }
  }
}
