/**
 The recovery walk over all records at boot, as a relation between flash contents: what it has
 resolved up to a point of the walk, and what it leaves behind when it stops there.
 */
module KvRecovery {
  import opened FdbDef
  import opened KvFlash
  import opened KvAlloc
  import opened KvEffects
  import opened KvCache
  import opened WalkOrder

  /** How a walk ended: at the end, at a record whose programming was cut, or at a pending record
      that found no room. */
  datatype Pass = Done | TornAt(at: Addr) | StarvedAt(at: Addr)

  /** The walk visits the sectors from the oldest on, and the records of a sector in order. */
  predicate Visited(b: Addr, oldest: nat, n: nat, j: nat, i: nat)
    requires oldest < n
  {
    b.sec < n && (StepOf(oldest, b.sec, n) < j || (StepOf(oldest, b.sec, n) == j && b.idx < i))
  }

  predicate Before(b: Addr, a: Addr, oldest: nat, n: nat)
    requires oldest < n && a.sec < n
  {
    Visited(b, oldest, n, StepOf(oldest, a.sec, n), a.idx)
  }

  function Resolved(r: Rec, visited: bool): Rec {
    if visited && r.status == PRE_DELETE then r.(status := DELETED) else r
  }

  ghost predicate ResolvedKey(f0: Flash, k: Key, oldest: nat, j: nat, i: nat)
    requires oldest < |f0|
  {
    exists y :: Pend(f0, y) && At(f0, y).key == k && Visited(y, oldest, |f0|, j, i)
  }

  ghost predicate AnyResolved(f0: Flash, oldest: nat, j: nat, i: nat)
    requires oldest < |f0|
  {
    exists b :: Pend(f0, b) && Visited(b, oldest, |f0|, j, i)
  }

  ghost predicate FirstPending(f: Flash, a: Addr, oldest: nat)
    requires oldest < |f|
  {
    Pend(f, a) && forall b :: Pend(f, b) ==> !Before(b, a, oldest, |f|)
  }

  /** The allocator had room for the first pending record of the walk. */
  ghost predicate FirstGranted(f: Flash, oldest: nat, gc: bool, cap: nat)
    requires oldest < |f|
  {
    exists a :: FirstPending(f, a, oldest) && Choose(f, oldest, At(f, a).len, gc, cap).Some?
  }

  /** The walk has come to record `i` of sector `j`: the pending records behind it are resolved, each
      to a live record of its key, and nothing else has changed. */
  ghost predicate Passing(f0: Flash, f: Flash, oldest: nat, gc: bool, cap: nat, j: nat, i: nat) {
    && |f| == |f0| && oldest < |f0|
    && (forall b :: In(f0, b) ==> In(f, b) && At(f, b) == Resolved(At(f0, b), Visited(b, oldest, |f0|, j, i)))
    && (forall b :: In(f, b) && !In(f0, b) ==> Live(f, b) && ResolvedKey(f0, At(f, b).key, oldest, j, i))
    && (forall b :: Visited(b, oldest, |f0|, j, i) ==> !Torn(f0, b))
    && (forall y :: Pend(f0, y) && Visited(y, oldest, |f0|, j, i) ==> HasLive(f, At(f0, y).key))
    && (AnyResolved(f0, oldest, j, i) ==> FirstGranted(f0, oldest, gc, cap))
    && (!AnyResolved(f0, oldest, j, i) ==> f == f0)
    && (forall s: nat :: s < |f0| ==>
          && f[s].ok == f0[s].ok && f0[s].dirty.Rank() <= f[s].dirty.Rank()
          && (f[s].dirty == DIRTY_GC ==> f0[s].dirty == DIRTY_GC))
  }

  lemma PassingStart(f: Flash, oldest: nat, gc: bool, cap: nat)
    requires oldest < |f|
    ensures Passing(f, f, oldest, gc, cap, 0, 0)
  {
  }

  lemma VisitedNext(oldest: nat, n: nat, j: nat, i: nat)
    requires oldest < n && j < n
    ensures forall b :: Visited(b, oldest, n, j, i + 1) <==> Visited(b, oldest, n, j, i) || b == Addr(SectorAt(oldest, j, n), i)
    ensures !Visited(Addr(SectorAt(oldest, j, n), i), oldest, n, j, i)
  {
    forall b: Addr
      ensures Visited(b, oldest, n, j, i + 1) <==> Visited(b, oldest, n, j, i) || b == Addr(SectorAt(oldest, j, n), i)
    {
      assert b == Addr(b.sec, b.idx);
    }
  }

  lemma ResolvedGrows(f0: Flash, oldest: nat, j: nat, i: nat)
    requires oldest < |f0| && j < |f0|
    ensures forall k :: ResolvedKey(f0, k, oldest, j, i) ==> ResolvedKey(f0, k, oldest, j, i + 1)
  {
    VisitedNext(oldest, |f0|, j, i);
    forall k | ResolvedKey(f0, k, oldest, j, i) ensures ResolvedKey(f0, k, oldest, j, i + 1) {
      var y :| Pend(f0, y) && At(f0, y).key == k && Visited(y, oldest, |f0|, j, i);
      assert Visited(y, oldest, |f0|, j, i + 1);
    }
  }

  lemma AnyNext(f0: Flash, oldest: nat, j: nat, i: nat)
    requires oldest < |f0| && j < |f0|
    ensures AnyResolved(f0, oldest, j, i + 1) <==>
            AnyResolved(f0, oldest, j, i) || Pend(f0, Addr(SectorAt(oldest, j, |f0|), i))
  {
    hide Visited;
    VisitedNext(oldest, |f0|, j, i);
    if b :| Pend(f0, b) && Visited(b, oldest, |f0|, j, i) {
      assert Visited(b, oldest, |f0|, j, i + 1);
    }
    if Pend(f0, Addr(SectorAt(oldest, j, |f0|), i)) {
      assert Visited(Addr(SectorAt(oldest, j, |f0|), i), oldest, |f0|, j, i + 1);
    }
  }

  /** A record that needs nothing. */
  lemma PassingSkip(f0: Flash, f: Flash, oldest: nat, gc: bool, cap: nat, j: nat, i: nat)
    requires Passing(f0, f, oldest, gc, cap, j, i) && j < |f0|
    requires var a := Addr(SectorAt(oldest, j, |f0|), i); !Pend(f, a) && !Torn(f, a)
    ensures Passing(f0, f, oldest, gc, cap, j, i + 1)
  {
    hide Visited;
    hide ResolvedKey;
    hide HasLive;
    hide AnyResolved;
    hide FirstGranted;
    var n, a := |f0|, Addr(SectorAt(oldest, j, |f0|), i);
    VisitedNext(oldest, n, j, i);
    ResolvedGrows(f0, oldest, j, i);
    AnyNext(f0, oldest, j, i);
    assert In(f0, a) ==> At(f, a) == At(f0, a);
  }

  lemma PassingSector(f0: Flash, f: Flash, oldest: nat, gc: bool, cap: nat, j: nat, i: nat)
    requires Passing(f0, f, oldest, gc, cap, j, i) && j < |f0| && i >= |f[SectorAt(oldest, j, |f0|)].recs|
    ensures Passing(f0, f, oldest, gc, cap, j + 1, 0)
  {
    hide ResolvedKey;
    hide HasLive;
    hide AnyResolved;
    hide FirstGranted;
    var n := |f0|;
    assert forall b :: In(f0, b) ==> In(f, b);
    assert forall b :: In(f0, b) ==> (Visited(b, oldest, n, j + 1, 0) <==> Visited(b, oldest, n, j, i));
    SameResolved(f0, oldest, j, i, j + 1, 0);
  }

  lemma SameResolved(f0: Flash, oldest: nat, j: nat, i: nat, j': nat, i': nat)
    requires oldest < |f0|
    requires forall b :: In(f0, b) ==> (Visited(b, oldest, |f0|, j', i') <==> Visited(b, oldest, |f0|, j, i))
    ensures forall k :: ResolvedKey(f0, k, oldest, j, i) <==> ResolvedKey(f0, k, oldest, j', i')
    ensures AnyResolved(f0, oldest, j, i) <==> AnyResolved(f0, oldest, j', i')
  {
    hide Visited;
  }

  /** A move makes its own key live. */
  lemma MoveMakesLive(f: Flash, g: Flash, a: Addr, oldest: nat, gc: bool, cap: nat, recovering: bool)
    requires FlashOk(f, cap) && oldest < |f| && Pend(f, a) && MoveEffect(f, g, a, oldest, gc, cap, recovering, true)
    requires !(recovering && HasLive(f, At(f, a).key))
    ensures HasLive(g, At(f, a).key)
  {
    hide Choose;
    KeptFactsSector(f, cap, a);
    var t := Choose(f, oldest, At(f, a).len, gc, cap).value;
    ChooseExact(f, oldest, At(f, a).len, gc, cap);
    hide FlashOk;
    var f2 := Placed(f, t, At(f, a).(status := WRITE));
    PlacedFrame(f, t, At(f, a).(status := WRITE), f2);
    StatusFrame(f2, a, DELETED, g);
    assert Live(g, Addr(t, |f[t].recs|));
  }

  lemma FrameLives(f: Flash, g: Flash, a: Addr)
    requires Frame(f, g, a) && Pend(f, a)
    ensures forall k :: HasLive(f, k) ==> HasLive(g, k)
  {
    forall k | HasLive(f, k) ensures HasLive(g, k) {
      var b :| Live(f, b) && At(f, b).key == k;
      assert Live(g, b);
    }
  }

  /** A move keeps every key live that was live, and makes its own key live. */
  lemma MoveLives(f: Flash, g: Flash, a: Addr, oldest: nat, gc: bool, cap: nat, recovering: bool)
    requires FlashOk(f, cap) && oldest < |f| && Pend(f, a) && MoveEffect(f, g, a, oldest, gc, cap, recovering, true)
    requires Frame(f, g, a)
    ensures forall k :: HasLive(f, k) ==> HasLive(g, k)
    ensures HasLive(g, At(f, a).key)
  {
    assert In(f, a);
    hide *;
    FrameLives(f, g, a);
    if !(recovering && HasLive(f, At(f, a).key)) {
      MoveMakesLive(f, g, a, oldest, gc, cap, recovering);
    }
  }

  lemma PassingMove(f0: Flash, f: Flash, g: Flash, oldest: nat, gc: bool, cap: nat, j: nat, i: nat)
    requires Passing(f0, f, oldest, gc, cap, j, i) && j < |f0|
    requires var a := Addr(SectorAt(oldest, j, |f0|), i);
             && Pend(f, a) && Frame(f, g, a) && At(g, a) == At(f, a).(status := DELETED)
             && f[a.sec].dirty.Rank() <= g[a.sec].dirty.Rank()
             && (g[a.sec].dirty == DIRTY_GC ==> f[a.sec].dirty == DIRTY_GC)
             && (forall k :: HasLive(f, k) ==> HasLive(g, k)) && HasLive(g, At(f, a).key)
             && Choose(f, oldest, At(f, a).len, gc, cap).Some?
    ensures Passing(f0, g, oldest, gc, cap, j, i + 1)
  {
    hide Visited;
    hide ResolvedKey;
    hide HasLive;
    hide AnyResolved;
    hide FirstGranted;
    hide Choose;
    var n, a := |f0|, Addr(SectorAt(oldest, j, |f0|), i);
    VisitedNext(oldest, n, j, i);
    ResolvedGrows(f0, oldest, j, i);
    assert Pend(f0, a) && At(f0, a) == At(f, a);
    ResolvedNow(f0, a, oldest, j, i + 1);
    AnyNext(f0, oldest, j, i);
    if !AnyResolved(f0, oldest, j, i) {
      FirstIsGranted(f0, a, oldest, gc, cap, j, i);
    }
    forall b | In(g, b) && !In(f0, b) ensures Live(g, b) && ResolvedKey(f0, At(g, b).key, oldest, j, i + 1) {
      if In(f, b) {
        assert At(g, b) == At(f, b);
      }
    }
  }

  lemma FirstIsGranted(f0: Flash, a: Addr, oldest: nat, gc: bool, cap: nat, j: nat, i: nat)
    requires oldest < |f0| && j < |f0| && a == Addr(SectorAt(oldest, j, |f0|), i) && Pend(f0, a)
    requires !AnyResolved(f0, oldest, j, i) && Choose(f0, oldest, At(f0, a).len, gc, cap).Some?
    ensures FirstGranted(f0, oldest, gc, cap)
  {
    hide Choose;
    assert StepOf(oldest, a.sec, |f0|) == j;
    assert FirstPending(f0, a, oldest);
  }

  lemma ResolvedNow(f0: Flash, a: Addr, oldest: nat, j: nat, i: nat)
    requires oldest < |f0| && Pend(f0, a) && Visited(a, oldest, |f0|, j, i)
    ensures ResolvedKey(f0, At(f0, a).key, oldest, j, i)
  {
  }

  // ---------------------------------------------------------------- how a pass ends

  ghost predicate PassOutcome(f0: Flash, f: Flash, oldest: nat, gc: bool, cap: nat, res: Pass)
    requires oldest < |f0|
  {
    match res
    case Done => Passing(f0, f, oldest, gc, cap, |f0|, 0)
    case TornAt(a) =>
      Torn(f0, a) && exists g :: In(g, a) && f == WithStatus(g, a, ERR_HDR)
                                 && Passing(f0, g, oldest, gc, cap, StepOf(oldest, a.sec, |f0|), a.idx)
    case StarvedAt(a) =>
      Pend(f0, a) && oldest < |f| && Choose(f, oldest, At(f0, a).len, gc, cap).None?
      && Passing(f0, f, oldest, gc, cap, StepOf(oldest, a.sec, |f0|), a.idx)
  }

  /** The pending record `y` is behind the point where the pass ended. */
  predicate Reached(y: Addr, res: Pass, oldest: nat, n: nat)
    requires oldest < n
  {
    match res
    case Done => true
    case TornAt(a) => a.sec < n && Before(y, a, oldest, n)
    case StarvedAt(a) => a.sec < n && Before(y, a, oldest, n)
  }

  lemma PassingAfter(f0: Flash, f: Flash, oldest: nat, gc: bool, cap: nat, j: nat, i: nat)
    requires Passing(f0, f, oldest, gc, cap, j, i)
    ensures forall y :: Pend(f, y) <==> Pend(f0, y) && !Visited(y, oldest, |f0|, j, i)
    ensures forall b :: Torn(f, b) <==> Torn(f0, b)
    ensures forall k :: HasLive(f, k) <==> HasLive(f0, k) || ResolvedKey(f0, k, oldest, j, i)
  {
    hide Visited;
    forall b | Torn(f0, b) ensures Torn(f, b) {
      assert In(f, b) && At(f, b) == At(f0, b);
    }
    forall k ensures HasLive(f, k) <==> HasLive(f0, k) || ResolvedKey(f0, k, oldest, j, i) {
      if HasLive(f, k) {
        var b :| Live(f, b) && At(f, b).key == k;
        assert In(f0, b) ==> Live(f0, b);
      }
      if b :| Live(f0, b) && At(f0, b).key == k {
        assert Live(f, b) && At(f, b) == At(f0, b);
      }
    }
  }

  lemma VisitedAll(oldest: nat, n: nat)
    requires oldest < n
    ensures forall b: Addr :: b.sec < n ==> Visited(b, oldest, n, n, 0)
  {
  }

  lemma MarkedTorn(g: Flash, a: Addr, f: Flash)
    requires Torn(g, a) && f == WithStatus(g, a, ERR_HDR)
    ensures forall y :: Pend(f, y) <==> Pend(g, y)
    ensures forall b :: Torn(f, b) <==> Torn(g, b) && b != a
    ensures forall k :: HasLive(f, k) <==> HasLive(g, k)
  {
    Rewritten(g, a, At(g, a).(status := ERR_HDR));
    assert forall b :: Live(f, b) <==> Live(g, b) && At(f, b) == At(g, b);
    forall k | HasLive(g, k) ensures HasLive(f, k) {
      var b :| Live(g, b) && At(g, b).key == k;
      assert Live(f, b);
    }
  }

  /** After one pass the pending records left are exactly those the walk did not reach; a key can be
      read if and only if it was live before or one of its pending records was reached. */
  lemma PassExact(f0: Flash, f: Flash, oldest: nat, gc: bool, cap: nat, res: Pass)
    requires oldest < |f0| && PassOutcome(f0, f, oldest, gc, cap, res)
    ensures forall y :: Pend(f, y) <==> Pend(f0, y) && !Reached(y, res, oldest, |f0|)
    ensures forall b :: Torn(f, b) <==> Torn(f0, b) && res != TornAt(b)
    ensures forall k :: HasLive(f, k) <==>
              HasLive(f0, k) || exists y :: Pend(f0, y) && At(f0, y).key == k && Reached(y, res, oldest, |f0|)
    ensures res.Done? ==> NoTorn(f0)
  {
    hide Passing;
    match res
    case Done =>
      PassingAfter(f0, f, oldest, gc, cap, |f0|, 0);
      VisitedAll(oldest, |f0|);
      NotTornBehind(f0, f, oldest, gc, cap, |f0|, 0);
    case TornAt(a) =>
      var g :| In(g, a) && f == WithStatus(g, a, ERR_HDR)
               && Passing(f0, g, oldest, gc, cap, StepOf(oldest, a.sec, |f0|), a.idx);
      PassingAfter(f0, g, oldest, gc, cap, StepOf(oldest, a.sec, |f0|), a.idx);
      MarkedTorn(g, a, f);
    case StarvedAt(a) =>
      PassingAfter(f0, f, oldest, gc, cap, StepOf(oldest, a.sec, |f0|), a.idx);
  }

  lemma NotTornBehind(f0: Flash, f: Flash, oldest: nat, gc: bool, cap: nat, j: nat, i: nat)
    requires Passing(f0, f, oldest, gc, cap, j, i)
    ensures forall b :: Visited(b, oldest, |f0|, j, i) ==> !Torn(f0, b)
  {
  }

  /** A record whose programming was cut comes before a pending one in the walk. */
  ghost predicate TornBeforePending(f: Flash, oldest: nat)
    requires oldest < |f|
  {
    exists a, y :: Torn(f, a) && Pend(f, y) && Before(a, y, oldest, |f|)
  }

  /** If every pending record finds room, one pass leaves nothing pending if and only if no torn
      record comes before a pending one: the walk stops at the first torn record. */
  lemma OnePassSuffices(f0: Flash, f: Flash, oldest: nat, gc: bool, cap: nat, res: Pass)
    requires oldest < |f0| && PassOutcome(f0, f, oldest, gc, cap, res)
    ensures NoPending(f) <==> !res.StarvedAt? && !TornBeforePending(f0, oldest)
  {
    hide Passing;
    PassExact(f0, f, oldest, gc, cap, res);
    match res
    case Done =>
    case StarvedAt(a) =>
      assert Pend(f, a);
    case TornAt(a) =>
      var g :| In(g, a) && f == WithStatus(g, a, ERR_HDR)
               && Passing(f0, g, oldest, gc, cap, StepOf(oldest, a.sec, |f0|), a.idx);
      NotTornBehind(f0, g, oldest, gc, cap, StepOf(oldest, a.sec, |f0|), a.idx);
      forall b, y | Torn(f0, b) && Pend(f0, y) && Before(b, y, oldest, |f0|) ensures Pend(f, y) {
        assert !Before(b, a, oldest, |f0|);
      }
      forall y | Pend(f, y) ensures Before(a, y, oldest, |f0|) {
        InOrder(a, y, oldest, |f0|);
      }
  }

  lemma InOrder(a: Addr, y: Addr, oldest: nat, n: nat)
    requires oldest < n && a.sec < n && y.sec < n && a != y
    ensures Before(a, y, oldest, n) <==> !Before(y, a, oldest, n)
  {
    if StepOf(oldest, a.sec, n) == StepOf(oldest, y.sec, n) {
      assert a.sec == y.sec;
      assert a == Addr(a.sec, a.idx) && y == Addr(y.sec, y.idx);
    }
  }

  // ---------------------------------------------------------------- a boot that never ends

  /** The first thing the walk meets is a pending record that finds no room, and there is nothing a
      collection could free: no sector is dirty.  A power cut between the PRE_DELETE of the old record
      and the dirty mark of its sector can leave this behind. */
  ghost predicate Stuck(f: Flash, oldest: nat, cap: nat) {
    && oldest < |f| && 0 < EmptyCount(f) <= GC_EMPTY_THRESHOLD
    && (forall s: nat :: s < |f| ==> f[s].dirty !in {DIRTY_TRUE, DIRTY_GC})
    && exists a :: FirstPending(f, a, oldest) && Choose(f, oldest, At(f, a).len, false, cap).None?
                   && forall b :: Torn(f, b) ==> !Before(b, a, oldest, |f|)
  }

  /** A pass over a stuck flash changes nothing. */
  lemma StuckPass(f0: Flash, f: Flash, oldest: nat, cap: nat, res: Pass)
    requires Stuck(f0, oldest, cap) && PassOutcome(f0, f, oldest, false, cap, res)
    ensures res.StarvedAt? && f == f0
  {
    var a :| FirstPending(f0, a, oldest) && Choose(f0, oldest, At(f0, a).len, false, cap).None?
             && forall b :: Torn(f0, b) ==> !Before(b, a, oldest, |f0|);
    OnlyFirst(f0, a, oldest, cap);
    match res
    case Done =>
      VisitedAll(oldest, |f0|);
    case TornAt(b) =>
      InOrder(b, a, oldest, |f0|);
    case StarvedAt(b) =>
  }

  lemma OnlyFirst(f: Flash, a: Addr, oldest: nat, cap: nat)
    requires oldest < |f| && FirstPending(f, a, oldest) && Choose(f, oldest, At(f, a).len, false, cap).None?
    ensures !FirstGranted(f, oldest, false, cap)
  {
    forall b | FirstPending(f, b, oldest) ensures b == a {
      if b != a {
        InOrder(a, b, oldest, |f|);
      }
    }
  }

  /** The cut of `set_kv` between the PRE_DELETE of the old record and the dirty mark of its sector gets the
      database stuck exactly if the old record would find no room, only the reserve is EMPTY, and no sector is
      dirty. */
  lemma CutBeforeDirtyMarkSticks(f: Flash, a: Addr, oldest: nat, cap: nat)
    requires oldest < |f| && Live(f, a) && NoPending(f) && NoTorn(f)
    ensures Stuck(WithStatus(f, a, PRE_DELETE), oldest, cap) <==>
            && 0 < EmptyCount(f) <= GC_EMPTY_THRESHOLD && NothingDirty(f)
            && Choose(f, oldest, At(f, a).len, false, cap).None?
  {
    hide Choose;
    hide EmptyCount;
    hide FirstPending;
    hide Before;
    var g := WithStatus(f, a, PRE_DELETE);
    SameRoom(f, a, PRE_DELETE, oldest, At(f, a).len, false, cap);
    OnlyOnePending(f, a, oldest);
    assert forall s: nat :: s < |f| ==> g[s].dirty == f[s].dirty;
    if Stuck(g, oldest, cap) {
      var b := FirstOf(g, oldest, cap);
    }
  }

  lemma FirstOf(f: Flash, oldest: nat, cap: nat) returns (a: Addr)
    requires Stuck(f, oldest, cap)
    ensures Pend(f, a) && Choose(f, oldest, At(f, a).len, false, cap).None?
  {
    a :| FirstPending(f, a, oldest) && Choose(f, oldest, At(f, a).len, false, cap).None?
         && forall b :: Torn(f, b) ==> !Before(b, a, oldest, |f|);
  }

  lemma OnlyOnePending(f: Flash, a: Addr, oldest: nat)
    requires oldest < |f| && Live(f, a) && NoPending(f) && NoTorn(f)
    ensures FirstPending(WithStatus(f, a, PRE_DELETE), a, oldest) && NoTorn(WithStatus(f, a, PRE_DELETE))
    ensures forall b :: Pend(WithStatus(f, a, PRE_DELETE), b) ==> b == a
    ensures At(WithStatus(f, a, PRE_DELETE), a).len == At(f, a).len
  {
    var r := At(f, a).(status := PRE_DELETE);
    Rewritten(f, a, r);
    forall b | In(WithRec(f, a, r), b) ensures !Torn(WithRec(f, a, r), b) && (Pend(WithRec(f, a, r), b) ==> b == a) {
      assert !Torn(f, b) && !Pend(f, b);
    }
    assert !Before(a, a, oldest, |f|);
  }

  /** A status byte does not change what the allocator sees. */
  lemma SameRoom(f: Flash, a: Addr, st: KvStatus, oldest: nat, size: nat, gc: bool, cap: nat)
    requires oldest < |f| && In(f, a)
    ensures Choose(WithStatus(f, a, st), oldest, size, gc, cap).Some? <==> Choose(f, oldest, size, gc, cap).Some?
    ensures EmptyCount(WithStatus(f, a, st)) == EmptyCount(f)
  {
    hide Choose;
    hide EmptyCount;
    hide Free;
    hide Used;
    var g := WithStatus(f, a, st);
    SpaceOfStatus(f[a.sec].recs, a.idx, st);
    EmptyCountUpdate(f, a.sec, g[a.sec]);
    assert forall s: nat :: s < |f| ==> Fits(g[s], size, gc, cap) == Fits(f[s], size, gc, cap) && g[s].store == f[s].store;
    ChooseExact(f, oldest, size, gc, cap);
    ChooseExact(g, oldest, size, gc, cap);
  }

  /** A pass with nothing dirty that asks for another one has got somewhere, or never will. */
  lemma StuckOrLess(f0: Flash, f: Flash, oldest: nat, cap: nat, res: Pass)
    requires oldest < |f0| && PassOutcome(f0, f, oldest, false, cap, res) && NothingDirty(f0)
    requires res.StarvedAt? && 0 < EmptyCount(f) <= GC_EMPTY_THRESHOLD
    ensures Stuck(f0, oldest, cap) || |PendSet(f)| < |PendSet(f0)|
  {
    hide Passing; hide EmptyCount; hide Choose; hide PendSet; hide Before;
    PassExact(f0, f, oldest, false, cap, res);
    FewerAddresses(PendSet(f), PendSet(f0));
    var a := res.at;
    if forall y :: Pend(f0, y) ==> !Reached(y, res, oldest, |f0|) {
      NoneReached(f0, f, oldest, cap, a);
      assert FirstPending(f0, a, oldest);
    } else {
      var y :| Pend(f0, y) && Reached(y, res, oldest, |f0|);
      assert y in PendSet(f0) && y !in PendSet(f);
    }
  }

  lemma NoneReached(f0: Flash, f: Flash, oldest: nat, cap: nat, a: Addr)
    requires oldest < |f0| && PassOutcome(f0, f, oldest, false, cap, StarvedAt(a))
    requires forall y :: Pend(f0, y) ==> !Reached(y, StarvedAt(a), oldest, |f0|)
    ensures f == f0 && Pend(f0, a) && Choose(f0, oldest, At(f0, a).len, false, cap).None?
    ensures forall b :: Torn(f0, b) ==> !Before(b, a, oldest, |f0|)
  {
    hide Choose; hide FirstGranted; hide ResolvedKey; hide HasLive;
    assert !AnyResolved(f0, oldest, StepOf(oldest, a.sec, |f0|), a.idx);
  }

  /** With one pending record there is nothing in between. */
  lemma OneStuck(f0: Flash, f: Flash, oldest: nat, cap: nat, res: Pass)
    requires oldest < |f0| && PassOutcome(f0, f, oldest, false, cap, res) && NothingDirty(f0)
    requires res.StarvedAt? && 0 < EmptyCount(f) <= GC_EMPTY_THRESHOLD
    requires forall y, z :: Pend(f0, y) && Pend(f0, z) ==> y == z
    ensures Stuck(f0, oldest, cap)
  {
    hide Stuck; hide Passing; hide EmptyCount; hide Choose; hide PendSet;
    StuckOrLess(f0, f, oldest, cap, res);
    StarvedPends(f0, f, oldest, cap, res);
    OnlyMember(PendSet(f0), res.at);
    OnlyMember(PendSet(f), res.at);
  }

  lemma OnlyMember<T>(s: set<T>, a: T)
    requires a in s
    ensures |s| >= 1 && ((forall b :: b in s ==> b == a) ==> |s| == 1)
  {
    if forall b :: b in s ==> b == a {
      assert s == {a};
    }
  }

  lemma StarvedPends(f0: Flash, f: Flash, oldest: nat, cap: nat, res: Pass)
    requires oldest < |f0| && PassOutcome(f0, f, oldest, false, cap, res) && res.StarvedAt?
    ensures Pend(f0, res.at) && Pend(f, res.at)
  {
    PassExact(f0, f, oldest, false, cap, res);
  }

  lemma PassPends(f0: Flash, f: Flash, oldest: nat, cap: nat, res: Pass)
    requires oldest < |f0| && PassOutcome(f0, f, oldest, false, cap, res)
    ensures |PendSet(f)| <= |PendSet(f0)|
  {
    hide PassOutcome; hide PendSet;
    PassExact(f0, f, oldest, false, cap, res);
    FewerAddresses(PendSet(f), PendSet(f0));
  }

  // ---------------------------------------------------------------- nothing is lost on the way

  lemma PassingStored(f0: Flash, f: Flash, oldest: nat, gc: bool, cap: nat, j: nat, i: nat)
    requires Passing(f0, f, oldest, gc, cap, j, i)
    ensures StoredKeys(f) == StoredKeys(f0)
  {
    hide AnyResolved; hide FirstGranted; hide Visited; hide StoredKeys;
    forall b | Kept(f, b) ensures Stored(f0, At(f, b).key) {
      if !In(f0, b) {
        var y :| Pend(f0, y) && At(f0, y).key == At(f, b).key && Visited(y, oldest, |f0|, j, i);
        assert Kept(f0, y);
      } else {
        assert Kept(f0, b);
      }
    }
    forall b | Kept(f0, b) ensures Stored(f, At(f0, b).key) {
      if Pend(f0, b) && Visited(b, oldest, |f0|, j, i) {
        var c := LiveOne(f, At(f0, b).key);
        assert Kept(f, c);
      } else {
        assert Kept(f, b);
      }
    }
    SameStored(f0, f);
  }

  /** A pass keeps every key stored. */
  lemma PassStored(f0: Flash, f: Flash, oldest: nat, gc: bool, cap: nat, res: Pass)
    requires oldest < |f0| && PassOutcome(f0, f, oldest, gc, cap, res)
    ensures StoredKeys(f) == StoredKeys(f0)
  {
    hide Passing; hide StoredKeys;
    match res
    case Done =>
      PassingStored(f0, f, oldest, gc, cap, |f0|, 0);
    case StarvedAt(a) =>
      PassingStored(f0, f, oldest, gc, cap, StepOf(oldest, a.sec, |f0|), a.idx);
    case TornAt(a) =>
      var g :| In(g, a) && f == WithStatus(g, a, ERR_HDR)
               && Passing(f0, g, oldest, gc, cap, StepOf(oldest, a.sec, |f0|), a.idx);
      PassingStored(f0, g, oldest, gc, cap, StepOf(oldest, a.sec, |f0|), a.idx);
      PassingAfter(f0, g, oldest, gc, cap, StepOf(oldest, a.sec, |f0|), a.idx);
      TornStored(g, a);
  }

  lemma TornStored(g: Flash, a: Addr)
    requires Torn(g, a)
    ensures StoredKeys(WithStatus(g, a, ERR_HDR)) == StoredKeys(g)
  {
    var f := WithStatus(g, a, ERR_HDR);
    Rewritten(g, a, At(g, a).(status := ERR_HDR));
    assert forall b :: Kept(f, b) <==> Kept(g, b) && At(f, b) == At(g, b);
    forall b | Kept(g, b) ensures Stored(f, At(g, b).key) {
      assert Kept(f, b);
    }
    forall b | Kept(f, b) ensures Stored(g, At(f, b).key) {
      assert Kept(g, b);
    }
    SameStored(f, g);
  }

  // ---------------------------------------------------------------- small steps

  lemma PassingHere(f0: Flash, f: Flash, oldest: nat, gc: bool, cap: nat, j: nat, i: nat)
    requires Passing(f0, f, oldest, gc, cap, j, i) && j < |f0|
    ensures var a := Addr(SectorAt(oldest, j, |f0|), i);
            && StepOf(oldest, a.sec, |f0|) == j
            && (Pend(f, a) ==> Pend(f0, a) && At(f0, a) == At(f, a))
            && (Torn(f, a) ==> Torn(f0, a))
            && (a.idx >= |f0[a.sec].recs| && In(f, a) ==> Live(f, a))
  {
    hide AnyResolved;
    hide FirstGranted;
    hide ResolvedKey;
    VisitedNext(oldest, |f0|, j, i);
  }

  lemma FrameLengths(f: Flash, g: Flash, a: Addr)
    requires Frame(f, g, a)
    ensures |g[a.sec].recs| >= |f[a.sec].recs|
  {
    if |f[a.sec].recs| > 0 {
      assert In(f, Addr(a.sec, |f[a.sec].recs| - 1));
    }
  }

  lemma SettledFirst(f: Flash, s: nat)
    requires Settled(f) && s < |f| && f[s].store == STORE_USING
    ensures SettledSector(f[s])
  {
  }

  lemma PassDirty(f0: Flash, f: Flash, oldest: nat, gc: bool, cap: nat, res: Pass)
    requires oldest < |f0| && PassOutcome(f0, f, oldest, gc, cap, res)
    ensures PendingDirty(f0) ==> PendingDirty(f)
  {
    hide AnyResolved;
    hide FirstGranted;
    hide ResolvedKey;
    hide HasLive;
    hide Choose;
    hide Visited;
    PassExact(f0, f, oldest, gc, cap, res);
  }

  lemma NothingLeft(f: Flash)
    requires PendingDirty(f) && NothingDirty(f)
    ensures NoPending(f)
  {
    assert forall a :: Pend(f, a) ==> a.sec < |f|;
  }

  lemma NoStarving(f0: Flash, f: Flash, oldest: nat, gc: bool, cap: nat, res: Pass)
    requires oldest < |f0| && NoPending(f0) && PassOutcome(f0, f, oldest, gc, cap, res)
    ensures !res.StarvedAt?
  {
    hide Passing;
  }

  ghost predicate IsOldest(f: Flash, o: nat) {
    && o < |f|
    && (forall s: nat :: o < s < |f| ==> !(f[s].store in {STORE_USING, STORE_FULL} && f[s - 1].store == STORE_EMPTY))
    && (o > 0 ==> f[o].store in {STORE_USING, STORE_FULL} && f[o - 1].store == STORE_EMPTY)
  }

  lemma OldestUnique(f: Flash, o: nat, o': nat)
    requires IsOldest(f, o) && IsOldest(f, o')
    ensures o == o'
  {
  }

  lemma PassFacts(f0: Flash, f: Flash, oldest: nat, cap: nat, res: Pass)
    requires oldest < |f0| && PassOutcome(f0, f, oldest, false, cap, res)
    ensures forall b :: Torn(f, b) <==> Torn(f0, b) && res != TornAt(b)
    ensures res.TornAt? ==> Torn(f0, res.at)
    ensures PendingDirty(f0) ==> PendingDirty(f)
    ensures PendingDirty(f0) && NothingDirty(f0) ==> !res.StarvedAt?
    ensures Stuck(f0, oldest, cap) ==> res.StarvedAt? && f == f0 && NothingDirty(f) && 0 < EmptyCount(f) <= GC_EMPTY_THRESHOLD
  {
    PassExact(f0, f, oldest, false, cap, res);
    PassDirty(f0, f, oldest, false, cap, res);
    if PendingDirty(f0) && NothingDirty(f0) {
      NothingLeft(f0);
      NoStarving(f0, f, oldest, false, cap, res);
    }
    if Stuck(f0, oldest, cap) {
      StuckPass(f0, f, oldest, cap, res);
    }
  }

  /** The headers are in order, and no walk has anything left to mark. */
  predicate Orderly(f: Flash) { Settled(f) && forall s: nat :: s < |f| ==> f[s].ok }

  ghost predicate OnePending(f: Flash) { forall y, z :: Pend(f, y) && Pend(f, z) ==> y == z }

  /** Nothing pending, a sector in reserve, and only names the application uses. */
  ghost predicate Usable(f: Flash, names: set<Key>) {
    NoPending(f) && EmptyCount(f) > 0 && GoodNames(names) && View(f).Keys <= names
  }

  lemma ViewIsReads(f: Flash, cap: nat, p: Promise)
    requires Recoverable(f, cap, p)
    ensures Reads(f, View(f))
  {
    ViewReads(f);
  }
}
