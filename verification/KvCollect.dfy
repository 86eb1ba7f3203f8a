/**
 Garbage collection, as a relation between flash contents: how far it has come, what it leaves, and what it
 may lose.
 */
module KvCollect {
  import opened FdbDef
  import opened KvCache
  import opened KvEffects
  import opened KvFlash
  import opened KvSectorCache
  import opened WalkOrder

  lemma ErasedKeeps(f: Flash, cap: nat, s: nat, x: Sector, p: Promise)
    requires s < |f| && Recoverable(f, cap, p) && p.reserve == 0 && x in {ERASED, FORMATTED} && FlashOk(f[s := x], cap)
    ensures Recoverable(f[s := x], cap, Losing(p, Lost(f, f[s := FORMATTED])))
    ensures StoredKeys(f[s := FORMATTED]) <= StoredKeys(f)
  {
    hide FlashOk; hide PendingDirty; hide EmptyCount;
    var g := f[s := FORMATTED];
    forall k | Stored(f[s := x], k) ensures Stored(g, k) && Stored(f, k) {
      var b :| Kept(f[s := x], b) && At(f[s := x], b).key == k;
      assert Kept(g, b) && Kept(f, b);
    }
    forall k | Stored(g, k) ensures Stored(f[s := x], k) {
      var b :| Kept(g, b) && At(g, b).key == k;
      assert Kept(f[s := x], b);
    }
    KeepsErase(f, s, x, p, Lost(f, g));
    ErasedTidy(f, s, x);
  }

  /** What collecting some sectors leaves: nothing becomes stored, pending or cut, and while an EMPTY sector is
      in reserve nothing is lost. */
  ghost predicate Collected(f: Flash, g: Flash, starved: bool) {
    && |g| == |f| && StoredKeys(g) <= StoredKeys(f) && (!starved ==> StoredKeys(g) == StoredKeys(f))
    && (EmptyCount(f) > 0 ==> !starved && EmptyCount(g) >= EmptyCount(f))
    && (forall b :: Pend(g, b) ==> Pend(f, b))
    && (forall b :: Torn(g, b) ==> Torn(f, b))
    && (PendingDirty(f) ==> PendingDirty(g))
  }

  lemma CollectedSize(f: Flash, g: Flash, starved: bool)
    requires Collected(f, g, starved)
    ensures |g| == |f|
  {
  }

  lemma CollectedNone(f: Flash)
    ensures Collected(f, f, false)
  {
  }

  lemma CollectedTwice(f: Flash, g: Flash, h: Flash, starved: bool, more: bool)
    requires Collected(f, g, starved) && Collected(g, h, more)
    ensures Collected(f, h, starved || more)
    ensures StoredKeys(h) <= StoredKeys(g) <= StoredKeys(f) && |h| == |f|
  {
    hide StoredKeys; hide EmptyCount; hide PendingDirty; hide Pend; hide Torn;
  }

  lemma CollectedFacts(f: Flash, g: Flash, starved: bool)
    requires Collected(f, g, starved)
    ensures |g| == |f| && (EmptyCount(f) > 0 ==> !starved && EmptyCount(g) >= EmptyCount(f))
    ensures (forall b :: Pend(g, b) ==> Pend(f, b)) && (forall b :: Torn(g, b) ==> Torn(f, b))
    ensures PendingDirty(f) ==> PendingDirty(g)
    ensures StoredKeys(g) <= StoredKeys(f) && (!starved ==> StoredKeys(g) == StoredKeys(f))
    ensures NoPending(f) ==> NoPending(g)
    ensures |PendSet(g)| <= |PendSet(f)|
  {
    hide StoredKeys; hide EmptyCount; hide PendingDirty; hide Torn; hide PendSet;
    FewerAddresses(PendSet(g), PendSet(f));
  }

  lemma NoPendingStill(f: Flash, g: Flash, starved: bool)
    requires Collected(f, g, starved)
    ensures NoPending(f) ==> NoPending(g)
  {
    hide StoredKeys; hide EmptyCount; hide PendingDirty; hide Torn;
  }

  lemma CollectedOne(f: Flash, g: Flash, s: nat, starved: bool)
    requires |g| == |f| && s < |f| && g[s] == FORMATTED
    requires StoredKeys(g) <= StoredKeys(f) && (!starved ==> StoredKeys(g) == StoredKeys(f))
    requires EmptyCount(f) > 0 ==> !starved && EmptyCount(g) >= EmptyCount(f)
    requires forall t: nat :: t < |g| && t != s ==> g[t].dirty == f[t].dirty
    requires forall b :: Pend(g, b) ==> Pend(f, b)
    requires forall b :: Torn(g, b) ==> Torn(f, b)
    ensures Collected(f, g, starved)
  {
    hide StoredKeys; hide EmptyCount;
    PendingStaysDirty(f, g, s);
  }

  lemma CollectingLoses(f0: Flash, f: Flash, g: Flash, s: nat, starved: bool, p: Promise)
    requires s < |f| && Collecting(f0, f, s, |f[s].recs|, starved)
    ensures Lost(f, g) == Lost(f0, g) && StoredKeys(f) == StoredKeys(f0)
  {
    hide StoredKeys;
  }

  lemma FollowsIfRoom(f: Flash, g: Flash, c: Table, starved: bool)
    requires !starved ==> forall a :: Live(f, a) ==> Live(g, a) && At(g, a) == At(f, a)
    ensures !starved && CacheOk(f, c, {}) ==> CacheOk(g, c, {})
  {
    hide NameCrc;
    if !starved && CacheOk(f, c, {}) {
      CacheFollows(f, g, c, {});
    }
  }

  lemma DoomedFormat(f: Flash, g: Flash, s: nat, cap: nat)
    requires s < |f| && g == f[s := f[s].(dirty := DIRTY_GC)]
    ensures Doomed(f, s, cap) ==> g[s := FORMATTED] == f[s := FORMATTED]
  {
  }

  /** One collection after others. */
  lemma LostOn(h0: seq<Flash>, h1: seq<Flash>, h2: seq<Flash>, cap: nat, p: Promise, f: Flash, g: Flash, h: Flash)
    requires Ran(h0, h1, cap, Losing(p, Lost(f, g))) && Ran(h1, h2, cap, Losing(Losing(p, Lost(f, g)), Lost(g, h)))
    requires Recoverable(h, cap, Losing(Losing(p, Lost(f, g)), Lost(g, h)))
    requires StoredKeys(h) <= StoredKeys(g) <= StoredKeys(f)
    ensures Ran(h0, h2, cap, Losing(p, Lost(f, h))) && Recoverable(h, cap, Losing(p, Lost(f, h)))
  {
    hide Ran; hide Recoverable; hide StoredKeys; hide Lost; hide Losing;
    LostTwice(f, g, h, p);
    RanGrows(h0, h1, h2, cap, p, Lost(f, g), Lost(f, h));
  }

  /** No dirty sector among the first `j` of the walk. */
  predicate CleanBehind(f: Flash, start: nat, j: nat) {
    start < |f| && forall s: nat :: s < |f| && StepOf(start, s, |f|) < j && f[s].ok ==> f[s].dirty !in {DIRTY_TRUE, DIRTY_GC}
  }

  /** A collection has come to sector `j` of the walk. */
  ghost predicate Underway(f0: Flash, f: Flash, start: nat, j: nat, cap: nat, starved: bool) {
    && Collected(f0, f, starved) && CleanBehind(f, start, j)
    && (NothingDirty(f0) ==> f == f0)
    && (forall s: nat :: Doomed(f0, s, cap) ==> f == f0 || f == f0[s := FORMATTED])
  }

  lemma UnderwayStart(f: Flash, start: nat, cap: nat)
    requires start < |f|
    ensures Underway(f, f, start, 0, cap, false) && Collected(f, f, false) && |f| == |f|
  {
    hide Doomed;
    CollectedNone(f);
  }

  lemma UnderwayFacts(f0: Flash, f: Flash, start: nat, j: nat, cap: nat, starved: bool)
    requires Underway(f0, f, start, j, cap, starved) && j < |f|
    ensures start < |f| && |f| == |f0| && SectorAt(start, j, |f|) < |f|
  {
    hide Doomed; hide StoredKeys; hide EmptyCount;
  }

  lemma UnderwayDirty(f0: Flash, f: Flash, start: nat, j: nat, cap: nat, starved: bool)
    requires Underway(f0, f, start, j, cap, starved) && j < |f| && start < |f|
    requires f[SectorAt(start, j, |f|)].dirty in {DIRTY_TRUE, DIRTY_GC}
    ensures !NothingDirty(f0) && (NoPending(f0) ==> NoPending(f))
  {
    hide Doomed; hide StoredKeys; hide EmptyCount; hide CleanBehind; hide Torn;
    NoPendingStill(f0, f, starved);
  }

  lemma UnderwayNext(f0: Flash, f: Flash, g: Flash, start: nat, j: nat, cap: nat, starved: bool, more: bool)
    requires Underway(f0, f, start, j, cap, starved) && j < |f| && start < |f|
    requires Collected(f, g, more) && f[SectorAt(start, j, |f|)].dirty in {DIRTY_TRUE, DIRTY_GC}
    requires |g| == |f| && g[SectorAt(start, j, |f|)] == FORMATTED
    requires forall t: nat :: t < |g| && t != SectorAt(start, j, |f|) ==> g[t].ok == f[t].ok && g[t].dirty == f[t].dirty
    requires Doomed(f, SectorAt(start, j, |f|), cap) ==> g == f[SectorAt(start, j, |f|) := FORMATTED]
    ensures Underway(f0, g, start, j + 1, cap, starved || more) && StoredKeys(g) <= StoredKeys(f) <= StoredKeys(f0)
  {
    var u := SectorAt(start, j, |f|);
    CleanNow(f, g, start, j);
    hide Doomed; hide CleanBehind; hide Collected;
    CollectedTwice(f0, f, g, starved, more);
    assert !NothingDirty(f);
    forall s: nat | Doomed(f0, s, cap) ensures g == f0[s := FORMATTED] {
      DoomedDone(f0, s, cap);
      assert f == f0;
      DoomedAlone(f0, s, u, cap);
    }
  }

  lemma UnderwaySkip(f0: Flash, f: Flash, start: nat, j: nat, cap: nat, starved: bool)
    requires Underway(f0, f, start, j, cap, starved) && j < |f| && start < |f|
    requires var s := SectorAt(start, j, |f|); f[s].ok ==> f[s].dirty !in {DIRTY_TRUE, DIRTY_GC}
    ensures Underway(f0, f, start, j + 1, cap, starved)
  {
    hide Doomed; hide Collected;
  }

  lemma UnderwayEnd(f0: Flash, f: Flash, start: nat, j: nat, cap: nat, starved: bool)
    requires Underway(f0, f, start, j, cap, starved) && FlashOk(f, cap)
    ensures Collected(f0, f, starved) && |f| == |f0| && (NothingDirty(f0) ==> f == f0)
    ensures j == |f| ==> NothingDirty(f) && forall s: nat :: Doomed(f0, s, cap) ==> s < |f0| && f == f0[s := FORMATTED]
  {
    if j == |f| {
      assert forall s: nat :: s < |f| ==> SectorOk(f[s], cap);
      forall s: nat | Doomed(f0, s, cap) ensures s < |f0| && f == f0[s := FORMATTED] {
        assert f0[s].dirty in {DIRTY_TRUE, DIRTY_GC};
      }
    }
  }

  lemma CleanNow(f: Flash, g: Flash, start: nat, j: nat)
    requires j < |f| && CleanBehind(f, start, j) && |g| == |f| && g[SectorAt(start, j, |f|)] == FORMATTED
    requires forall t: nat :: t < |g| && t != SectorAt(start, j, |f|) ==> g[t].ok == f[t].ok && g[t].dirty == f[t].dirty
    ensures CleanBehind(g, start, j + 1)
  {
  }

  lemma DirtyExact(cached: Dirty, dirty: Dirty)
    requires DirtyAgrees(cached, dirty, false)
    ensures cached == dirty
  {
  }

  // ---------------------------------------------------------------- where a collection stops

  predicate IsDirty(x: Sector) { x.ok && x.dirty in {DIRTY_TRUE, DIRTY_GC} }

  /** How many dirty sectors a walk has passed after `j` steps. */
  function DirtyBefore(f: Flash, start: nat, j: nat): nat
    requires start < |f| && j <= |f|
  {
    if j == 0 then 0
    else DirtyBefore(f, start, j - 1) + if IsDirty(f[SectorAt(start, j - 1, |f|)]) then 1 else 0
  }

  /** A collection that is to free so many bytes takes this sector: the dirty ones before it are not enough. */
  predicate Taken(f: Flash, start: nat, cap: nat, freeSize: nat, t: nat) {
    && t < |f| && start < |f| && IsDirty(f[t])
    && var k := DirtyBefore(f, start, StepOf(start, t, |f|)); k == 0 || k * cap < freeSize
  }

  /** Where the walks begin after one of this sector. */
  function NextStart(t: nat, n: nat): nat { if t + 1 < n then t + 1 else 0 }

  lemma NextStartIs(t: nat, n: nat)
    ensures NextStart(t, n) == if t + 1 < n then t + 1 else 0
  {
  }

  /** What is left of the dirty sectors: those taken are clean, the others are as they were, and the next walk begins
      behind the last one taken. */
  ghost predicate Stopped(f0: Flash, f: Flash, start: nat, o: nat, cap: nat, freeSize: nat) {
    && |f| == |f0| && start < |f0|
    && (forall t: nat :: t < |f0| ==> (IsDirty(f[t]) <==> IsDirty(f0[t]) && !Taken(f0, start, cap, freeSize, t)))
    && (forall t: nat :: t < |f0| && IsDirty(f0[t]) && !Taken(f0, start, cap, freeSize, t) ==> f[t] == f0[t])
    && (forall t: nat :: Taken(f0, start, cap, freeSize, t)
                         && (forall u: nat :: Taken(f0, start, cap, freeSize, u) ==>
                               StepOf(start, u, |f0|) <= StepOf(start, t, |f0|)) ==>
          o == NextStart(t, |f0|))
    && ((forall t: nat :: !Taken(f0, start, cap, freeSize, t)) ==> o == start)
  }

  /** After `j` steps: behind nothing is dirty, ahead all is as it was. */
  predicate Ahead(f0: Flash, f: Flash, start: nat, j: nat) {
    && |f| == |f0| && start < |f0|
    && (forall t: nat :: t < |f0| && StepOf(start, t, |f0|) < j ==> !IsDirty(f[t]))
    && (forall t: nat :: t < |f0| && StepOf(start, t, |f0|) >= j ==>
          IsDirty(f[t]) == IsDirty(f0[t]) && (IsDirty(f0[t]) ==> f[t] == f0[t]))
  }

  lemma AheadStart(f: Flash, start: nat)
    requires start < |f|
    ensures Ahead(f, f, start, 0)
  {
  }

  lemma AheadSkip(f0: Flash, f: Flash, start: nat, j: nat)
    requires Ahead(f0, f, start, j) && j < |f| && !IsDirty(f[SectorAt(start, j, |f|)])
    ensures Ahead(f0, f, start, j + 1) && !IsDirty(f0[SectorAt(start, j, |f|)])
  {
    assert StepOf(start, SectorAt(start, j, |f|), |f|) == j;
    assert forall t: nat :: t < |f| && StepOf(start, t, |f|) == j ==> t == SectorAt(start, j, |f|);
  }

  lemma AheadNext(f0: Flash, f: Flash, g: Flash, start: nat, j: nat)
    requires Ahead(f0, f, start, j) && j < |f| == |g| && IsDirty(f[SectorAt(start, j, |f|)])
    requires g[SectorAt(start, j, |f|)] == FORMATTED
    requires forall t: nat :: t < |g| && t != SectorAt(start, j, |f|) ==> g[t].ok == f[t].ok && g[t].dirty == f[t].dirty
    requires forall t: nat :: t < |g| && t != SectorAt(start, j, |f|) && IsDirty(f[t]) ==> g[t] == f[t]
    ensures Ahead(f0, g, start, j + 1) && IsDirty(f0[SectorAt(start, j, |f|)])
  {
    assert StepOf(start, SectorAt(start, j, |f|), |f|) == j;
    assert forall t: nat :: t < |f| && StepOf(start, t, |f|) == j ==> t == SectorAt(start, j, |f|);
  }

  /** The last dirty sector of the first `j` steps. */
  function LastDirty(f: Flash, start: nat, j: nat): (r: int)
    requires start < |f| && j <= |f|
    ensures r < |f|
  {
    if j == 0 then -1
    else if IsDirty(f[SectorAt(start, j - 1, |f|)]) then SectorAt(start, j - 1, |f|)
    else LastDirty(f, start, j - 1)
  }

  lemma {:induction false} LastDirtyIs(f: Flash, start: nat, j: nat)
    requires start < |f| && j <= |f|
    ensures var r := LastDirty(f, start, j);
            && (r < 0 ==> DirtyBefore(f, start, j) == 0
                          && forall t: nat :: t < |f| && StepOf(start, t, |f|) < j ==> !IsDirty(f[t]))
            && (r >= 0 ==>
                  && IsDirty(f[r]) && StepOf(start, r, |f|) < j && DirtyBefore(f, start, j) > 0
                  && forall t: nat :: t < |f| && IsDirty(f[t]) && StepOf(start, t, |f|) < j ==>
                       StepOf(start, t, |f|) <= StepOf(start, r, |f|))
  {
    hide IsDirty;
    if j > 0 {
      LastDirtyIs(f, start, j - 1);
      assert StepOf(start, SectorAt(start, j - 1, |f|), |f|) == j - 1;
      assert forall t: nat :: t < |f| && StepOf(start, t, |f|) == j - 1 ==> t == SectorAt(start, j - 1, |f|);
    }
  }

  lemma {:induction false} DirtyRises(f: Flash, start: nat, i: nat, j: nat)
    requires start < |f| && i <= j <= |f|
    ensures DirtyBefore(f, start, i) <= DirtyBefore(f, start, j)
    ensures i < j && IsDirty(f[SectorAt(start, i, |f|)]) ==> DirtyBefore(f, start, i) < DirtyBefore(f, start, j)
    decreases j
  {
    hide IsDirty;
    if i < j {
      DirtyRises(f, start, i, j - 1);
    }
  }

  /** Where the collection stands after `j` steps: what it has freed, and where the next walk would begin. */
  predicate Standing(f: Flash, start: nat, j: nat, cap: nat, cur: nat, o: nat) {
    && start < |f| && j <= |f| && cur == DirtyBefore(f, start, j) * cap
    && o == (if LastDirty(f, start, j) < 0 then start else NextStart(LastDirty(f, start, j), |f|))
  }

  /** It goes on as long as it has freed nothing, or not enough. */
  predicate Unfinished(f: Flash, start: nat, j: nat, cap: nat, freeSize: nat) {
    && start < |f| && j <= |f| && var k := DirtyBefore(f, start, j); k == 0 || k * cap < freeSize
  }

  lemma StandingStart(f: Flash, start: nat, cap: nat, freeSize: nat)
    requires start < |f|
    ensures Standing(f, start, 0, cap, 0, start) && Unfinished(f, start, 0, cap, freeSize)
  {
  }

  lemma StandingNext(f: Flash, start: nat, j: nat, cap: nat, freeSize: nat, cur: nat, o: nat, cur': nat, o': nat)
    requires Standing(f, start, j, cap, cur, o) && j < |f| && Unfinished(f, start, j, cap, freeSize)
    requires var s := SectorAt(start, j, |f|);
             if IsDirty(f[s]) then cur' == cur + cap && o' == NextStart(s, |f|) else cur' == cur && o' == o
    ensures Standing(f, start, j + 1, cap, cur', o')
    ensures !IsDirty(f[SectorAt(start, j, |f|)]) || cur' < freeSize ==> Unfinished(f, start, j + 1, cap, freeSize)
    ensures IsDirty(f[SectorAt(start, j, |f|)]) ==> DirtyBefore(f, start, j + 1) > 0
  {
    hide IsDirty;
    NextSum(DirtyBefore(f, start, j), cap);
  }

  lemma TakenUpTo(f: Flash, start: nat, j: nat, cap: nat, freeSize: nat)
    requires Unfinished(f, start, j, cap, freeSize) && j < |f|
    ensures forall t: nat :: t < |f| && IsDirty(f[t]) && StepOf(start, t, |f|) <= j ==> Taken(f, start, cap, freeSize, t)
  {
    hide IsDirty;
    forall t: nat | t < |f| && IsDirty(f[t]) && StepOf(start, t, |f|) <= j ensures Taken(f, start, cap, freeSize, t) {
      var i := StepOf(start, t, |f|);
      DirtyRises(f, start, i, j);
      Products(DirtyBefore(f, start, i), DirtyBefore(f, start, j), cap);
    }
  }

  lemma NotTakenFrom(f: Flash, start: nat, j: nat, cap: nat, freeSize: nat)
    requires start < |f| && j <= |f| && DirtyBefore(f, start, j) > 0 && DirtyBefore(f, start, j) * cap >= freeSize
    ensures forall t: nat :: t < |f| && StepOf(start, t, |f|) >= j ==> !Taken(f, start, cap, freeSize, t)
  {
    hide IsDirty;
    forall t: nat | t < |f| && StepOf(start, t, |f|) >= j ensures !Taken(f, start, cap, freeSize, t) {
      var i := StepOf(start, t, |f|);
      DirtyRises(f, start, j, i);
      Products(DirtyBefore(f, start, j), DirtyBefore(f, start, i), cap);
    }
  }

  lemma Products(a: nat, b: nat, cap: nat)
    ensures a <= b ==> a * cap <= b * cap
  {
  }

  lemma TakenExact(f: Flash, start: nat, j: nat, cap: nat, freeSize: nat)
    requires start < |f| && 0 < j <= |f| && Unfinished(f, start, j - 1, cap, freeSize)
    requires j == |f| || (DirtyBefore(f, start, j) > 0 && DirtyBefore(f, start, j) * cap >= freeSize)
    ensures forall t: nat :: Taken(f, start, cap, freeSize, t) <==> t < |f| && IsDirty(f[t]) && StepOf(start, t, |f|) < j
  {
    TakenUpTo(f, start, j - 1, cap, freeSize);
    if j < |f| {
      NotTakenFrom(f, start, j, cap, freeSize);
    }
    hide IsDirty; hide DirtyBefore;
  }

  /** The end: all sectors have been passed, or enough is free after step `j - 1`. */
  lemma StandingEnd(f0: Flash, f: Flash, start: nat, j: nat, cap: nat, freeSize: nat, cur: nat, o: nat)
    requires Standing(f0, start, j, cap, cur, o) && Ahead(f0, f, start, j)
    requires j > 0 && Unfinished(f0, start, j - 1, cap, freeSize)
    requires j == |f0| || (DirtyBefore(f0, start, j) > 0 && cur >= freeSize)
    ensures Stopped(f0, f, start, o, cap, freeSize)
  {
    hide IsDirty; hide DirtyBefore; hide LastDirty; hide Unfinished; hide Taken; hide StepOf;
    TakenExact(f0, start, j, cap, freeSize);
    LastDirtyIs(f0, start, j);
    NextIs(f0, start, j, cap, freeSize, o);
  }

  lemma NextIs(f: Flash, start: nat, j: nat, cap: nat, freeSize: nat, o: nat)
    requires start < |f| && j <= |f|
    requires o == (if LastDirty(f, start, j) < 0 then start else NextStart(LastDirty(f, start, j), |f|))
    requires forall t: nat :: Taken(f, start, cap, freeSize, t) <==> t < |f| && IsDirty(f[t]) && StepOf(start, t, |f|) < j
    ensures forall t: nat :: Taken(f, start, cap, freeSize, t)
                             && (forall u: nat :: Taken(f, start, cap, freeSize, u) ==>
                                   StepOf(start, u, |f|) <= StepOf(start, t, |f|)) ==>
              o == NextStart(t, |f|)
    ensures (forall t: nat :: !Taken(f, start, cap, freeSize, t)) ==> o == start
  {
    hide IsDirty; hide DirtyBefore; hide LastDirty; hide Taken; hide StepOf;
    LastDirtyIs(f, start, j);
    var r := LastDirty(f, start, j);
    forall t: nat | Taken(f, start, cap, freeSize, t)
                    && forall u: nat :: Taken(f, start, cap, freeSize, u) ==> StepOf(start, u, |f|) <= StepOf(start, t, |f|)
      ensures o == NextStart(t, |f|)
    {
      assert Taken(f, start, cap, freeSize, r);
      SameStep(start, r, t, |f|);
    }
    if r >= 0 {
      assert Taken(f, start, cap, freeSize, r);
    }
  }

  lemma StoppedClean(f0: Flash, f: Flash, start: nat, o: nat, cap: nat, freeSize: nat)
    requires Stopped(f0, f, start, o, cap, freeSize)
    ensures NothingDirty(f0) ==> o == start
  {
  }

  lemma DirtyIs(x: Sector)
    ensures IsDirty(x) <==> x.ok && x.dirty in {DIRTY_TRUE, DIRTY_GC}
  {
  }

  lemma DirtyUntouched(f: Flash, g: Flash, s: nat)
    requires |g| == |f|
    requires forall u: nat :: u < |g| && u != s && f[u].dirty in {DIRTY_TRUE, DIRTY_GC} ==> g[u] == f[u]
    ensures forall t: nat :: t < |g| && t != s && IsDirty(f[t]) ==> g[t] == f[t]
  {
  }

  lemma SameStep(start: nat, s: nat, t: nat, n: nat)
    requires start < n && s < n && t < n
    ensures StepOf(start, s, n) == StepOf(start, t, n) ==> s == t
  {
  }

  lemma NextSum(j: nat, cap: nat)
    ensures (j + 1) * cap == j * cap + cap && (j + 1) * cap >= j * cap
  {
  }

  /** The whole partition is never freed early. */
  /** The bytes of a database of `n` sectors. */
  function DbSize(n: nat, cap: nat): nat { n * (cap + SECTOR_HDR) }

  lemma EnoughForAll(j: nat, n: nat, cap: nat, cur: nat, free: nat)
    requires j <= n && n > 0 && cur <= j * cap && cur >= free
    ensures free < DbSize(n, cap)
  {
    assert n * (cap + SECTOR_HDR) == n * cap + n * SECTOR_HDR;
    assert j * cap <= n * cap;
  }
}
