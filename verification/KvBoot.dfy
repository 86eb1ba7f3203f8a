/**
 The steps of a boot, as relations between flash contents: the header check, the resumed collection, and the
 retries of the recovery walk.
 */
module KvBoot {
  import opened FdbDef
  import opened KvAlloc
  import opened KvCache
  import opened KvCollect
  import opened KvDevice
  import opened KvEffects
  import opened KvFlash
  import opened KvGuard
  import opened KvRecovery
  import opened KvSectorCache
  import opened KvSpace
  import opened WalkOrder

  /** What the walks of a boot find: every sector with a header, and every first slot with a record or given up. */
  function BootSector(x: Sector): Sector { if x.ok then SettledAs(x) else FORMATTED }

  function AtBoot(f: Flash): Flash { seq(|f|, s requires 0 <= s < |f| => BootSector(f[s])) }

  lemma BootFrame(f: Flash, cap: nat)
    requires FlashOk(f, cap)
    ensures var g := AtBoot(f);
            && |g| == |f| && (forall s: nat :: s < |f| ==> g[s].ok) && Settled(g)
            && (forall b :: Kept(g, b) <==> Kept(f, b)) && (forall b :: Torn(g, b) <==> Torn(f, b))
            && (forall b :: Kept(f, b) || Torn(f, b) ==> At(g, b) == At(f, b) && g[b.sec].dirty == f[b.sec].dirty)
  {
    hide Free; hide Apart; hide Used; hide Prog;
    var g := AtBoot(f);
    assert forall s: nat :: s < |f| ==> SectorOk(f[s], cap) && g[s] == BootSector(f[s]);
    SettledOnce(g);
    forall b: Addr
      ensures Kept(f, b) || Torn(f, b) ==> In(g, b) && At(g, b) == At(f, b) && g[b.sec].dirty == f[b.sec].dirty
      ensures Kept(g, b) || Torn(g, b) ==> In(f, b) && At(g, b) == At(f, b)
    {
      assert In(f, b) ==> RecOk(At(f, b), b.idx == 0);
    }
  }

  lemma BootHeaders(f: Flash, cap: nat)
    requires FlashOk(f, cap)
    ensures var g := AtBoot(f);
            && (EmptyCount(f) > 0 ==> EmptyCount(g) > 0) && (NothingDirty(g) <==> NothingDirty(f)) && (NoGc(g) <==> NoGc(f))
            && (Spare(f) ==> EmptyCount(g) > 0 || !NoGc(g))
  {
    hide Free; hide Apart; hide EmptyCount; hide RecOk; hide Used;
    var g := AtBoot(f);
    EmptyCountWitness(f);
    EmptyCountWitness(g);
    forall s: nat | s < |f|
      ensures g[s].ok && g[s].dirty == (if f[s].ok then f[s].dirty else DIRTY_FALSE) && (!f[s].ok ==> f[s].dirty == DIRTY_UNUSED)
      ensures !f[s].ok || f[s].store == STORE_EMPTY ==> g[s].store == STORE_EMPTY
    {
      assert SectorOk(f[s], cap) && g[s] == BootSector(f[s]);
    }
    hide AtBoot;
    if s: nat :| s < |f| && (!f[s].ok || (f[s].ok && f[s].store == STORE_EMPTY)) {
      assert g[s].ok && g[s].store == STORE_EMPTY;
    }
  }

  /** The preparation of a boot loses nothing. */
  lemma BootFacts(f: Flash, cap: nat)
    requires FlashOk(f, cap)
    ensures var g := AtBoot(f);
            && |g| == |f| && (PendingDirty(f) ==> PendingDirty(g)) && StoredKeys(g) == StoredKeys(f)
            && (forall b :: Torn(g, b) <==> Torn(f, b)) && PendSet(g) == PendSet(f) && (OnePending(f) <==> OnePending(g))
            && (Orderly(f) ==> g == f)
  {
    BootFrame(f, cap);
    var g := AtBoot(f);
    forall b | Kept(g, b) ensures Stored(f, At(g, b).key) {
      assert Kept(f, b);
    }
    forall b | Kept(f, b) ensures Stored(g, At(f, b).key) {
      assert Kept(g, b);
    }
    SameStored(f, g);
    hide StoredKeys; hide SettledAs;
    assert forall b :: Pend(g, b) <==> Pend(f, b);
    assert PendSet(g) == PendSet(f);
    SettledOnce(f);
  }

  lemma BootIs(f0: Flash, f1: Flash, f: Flash)
    requires |f| == |f1| == |f0| && forall s: nat :: s < |f0| ==> f1[s] == if f0[s].ok then f0[s] else FORMATTED
    requires forall s: nat :: s < |f1| ==> f[s] == SettledAs(f1[s])
    ensures f == AtBoot(f0)
  {
    assert SettledAs(FORMATTED) == FORMATTED;
    hide SettledAs;
  }

  /** A content that a boot would leave as it is. */
  lemma BootAgain(f: Flash)
    requires Settled(f) && forall s: nat :: s < |f| ==> f[s].ok
    ensures AtBoot(f) == f
  {
    SettledOnce(f);
  }

  /** Nothing that a power cut has left of a collection will cost a key at the next boot. */
  ghost predicate SafeAtBoot(f: Flash, start: nat, cap: nat) { SafeResume(AtBoot(f), start, cap) }

  /** At most one record is pending, it finds room, and there is no collection to resume. */
  ghost predicate RoomyPending(f: Flash, cap: nat) {
    && f != [] && (forall s: nat :: s < |f| ==> f[s].ok) && NoGc(f) && OnePending(f)
    && forall y :: Pend(f, y) ==> Choose(f, 0, At(f, y).len, false, cap).Some?
  }

  lemma RoomyNoGc(f: Flash, cap: nat)
    ensures RoomyPending(f, cap) ==> NoGc(f)
  {
  }

  lemma SameChoice(f: Flash, oldest: nat, o: nat, size: nat, cap: nat)
    requires oldest < |f| && o < |f|
    ensures Choose(f, oldest, size, false, cap).Some? <==> Choose(f, o, size, false, cap).Some?
  {
    hide Choose; hide Fits;
    ChooseExact(f, oldest, size, false, cap);
    ChooseExact(f, o, size, false, cap);
  }

  /** Such a record never asks for another walk. */
  lemma PassRoomy(f0: Flash, f: Flash, oldest: nat, cap: nat, res: Pass)
    requires oldest < |f0| && PassOutcome(f0, f, oldest, false, cap, res) && RoomyPending(f0, cap)
    ensures !res.StarvedAt? && RoomyPending(f, cap)
  {
    hide Passing; hide Choose; hide Before;
    PassExact(f0, f, oldest, false, cap, res);
    PassHeaders(f0, f, oldest, cap, res);
    if res.StarvedAt? {
      RefusedFirst(f0, f, oldest, cap, res.at);
      SameChoice(f0, oldest, 0, At(f0, res.at).len, cap);
      assert false;
    }
    forall y | Pend(f, y) ensures Choose(f, 0, At(f, y).len, false, cap).Some? {
      assert Pend(f0, y) && !Reached(y, res, oldest, |f0|);
      StoppedFirst(f0, f, oldest, cap, res, y);
      SameRoom(f0, res.at, ERR_HDR, 0, At(f0, y).len, false, cap);
    }
  }

  lemma RefusedFirst(f0: Flash, f: Flash, oldest: nat, cap: nat, a: Addr)
    requires oldest < |f0| && PassOutcome(f0, f, oldest, false, cap, StarvedAt(a)) && OnePending(f0)
    ensures Pend(f0, a) && Choose(f0, oldest, At(f0, a).len, false, cap).None?
  {
    hide Choose; hide FirstGranted; hide ResolvedKey; hide HasLive;
    assert !Visited(a, oldest, |f0|, StepOf(oldest, a.sec, |f0|), a.idx);
    assert !AnyResolved(f0, oldest, StepOf(oldest, a.sec, |f0|), a.idx);
  }

  /** If the only pending record is still there, the walk has stopped at a torn record before it. */
  lemma StoppedFirst(f0: Flash, f: Flash, oldest: nat, cap: nat, res: Pass, y: Addr)
    requires oldest < |f0| && PassOutcome(f0, f, oldest, false, cap, res) && OnePending(f0) && !res.StarvedAt?
    requires Pend(f0, y) && !Reached(y, res, oldest, |f0|)
    ensures res.TornAt? && In(f0, res.at) && f == WithStatus(f0, res.at, ERR_HDR) && In(f, y) && At(f, y) == At(f0, y)
  {
    hide Choose; hide FirstGranted; hide ResolvedKey; hide HasLive;
    var a := res.at;
    var g :| In(g, a) && f == WithStatus(g, a, ERR_HDR)
             && Passing(f0, g, oldest, false, cap, StepOf(oldest, a.sec, |f0|), a.idx);
    assert !AnyResolved(f0, oldest, StepOf(oldest, a.sec, |f0|), a.idx);
    assert g == f0 && y != a;
  }

  lemma PassHeaders(f0: Flash, f: Flash, oldest: nat, cap: nat, res: Pass)
    requires oldest < |f0| && PassOutcome(f0, f, oldest, false, cap, res)
    ensures |f| == |f0| && forall s: nat :: s < |f0| ==> f[s].ok == f0[s].ok
    ensures NoGc(f0) ==> NoGc(f)
  {
    hide Choose; hide FirstGranted; hide ResolvedKey; hide HasLive; hide AnyResolved; hide Visited;
  }

  /** The header check has come to sector `j` of the walk, and has formatted `failed` sectors. */
  predicate Headers(f0: Flash, f: Flash, start: nat, j: nat, failed: nat) {
    && |f| == |f0| && start < |f0|
    && (forall s: nat :: s < |f| ==> f[s] == if f0[s].ok || StepOf(start, s, |f|) >= j then f0[s] else FORMATTED)
    && (failed == 0 <==> forall s: nat :: s < |f0| && StepOf(start, s, |f0|) < j ==> f0[s].ok)
    && (failed == j <==> forall s: nat :: s < |f0| && StepOf(start, s, |f|) < j ==> !f0[s].ok)
  }

  lemma HeadersStart(f: Flash, start: nat)
    requires start < |f|
    ensures Headers(f, f, start, 0, 0)
  {
  }

  lemma HeadersAt(f0: Flash, f: Flash, start: nat, j: nat, failed: nat)
    requires Headers(f0, f, start, j, failed) && j < |f| && failed <= j
    ensures var s := SectorAt(start, j, |f|);
            && s < |f|
            && (f[s].ok ==> Headers(f0, f, start, j + 1, failed))
            && (!f[s].ok ==> Headers(f0, f[s := FORMATTED], start, j + 1, failed + 1))
  {
    assert forall t: nat :: t < |f| && StepOf(start, t, |f|) == j ==> t == SectorAt(start, j, |f|);
    assert StepOf(start, SectorAt(start, j, |f|), |f|) == j;
  }

  /** The first sector without a header. */
  lemma HeadersBad(f0: Flash, f: Flash, start: nat, j: nat)
    requires Headers(f0, f, start, j, 0) && j < |f| && !f[SectorAt(start, j, |f|)].ok
    ensures f == f0 && exists s: nat :: s < |f0| && !f0[s].ok
  {
    assert f == f0;
  }

  lemma HeadersEnd(f0: Flash, f: Flash, start: nat, failed: nat, cap: nat)
    requires Headers(f0, f, start, |f|, failed) && FlashOk(f0, cap)
    ensures SameRecs(f0, f) && forall s: nat :: s < |f| ==> f[s] == if f0[s].ok then f0[s] else FORMATTED
    ensures failed == |f| ==> forall s: nat :: s < |f| ==> f[s] == FORMATTED
    ensures failed == |f| <==> forall s: nat :: s < |f0| ==> !f0[s].ok
    ensures failed > 0 <==> exists s: nat :: s < |f0| && !f0[s].ok
    ensures failed == 0 ==> f == f0
  {
    SameRecsFormatted(f0, f, cap);
  }

  // the scan for the oldest sector

  /** What it knows after `k` sectors, if it has read what they hold. */
  predicate Scanned(f: Flash, k: nat, o: nat, last: Store) {
    && k <= |f| && (o == 0 || o < k) && last == (if k == 0 then STORE_UNUSED else f[k - 1].store)
    && (forall u: nat :: o < u < k ==> !(f[u].store in {STORE_USING, STORE_FULL} && f[u - 1].store == STORE_EMPTY))
    && (o > 0 ==> f[o].store in {STORE_USING, STORE_FULL} && f[o - 1].store == STORE_EMPTY)
  }

  lemma ScannedNext(f: Flash, k: nat, o: nat, last: Store, o': nat)
    requires Scanned(f, k, o, last) && k < |f|
    requires o' == if last == STORE_EMPTY && f[k].store in {STORE_USING, STORE_FULL} then k else o
    ensures Scanned(f, k + 1, o', f[k].store)
  {
  }

  lemma ScannedAll(f: Flash, o: nat, last: Store)
    requires f != []
    ensures Scanned(f, |f|, o, last) ==> IsOldest(f, o)
  {
  }

  /** What is read of a sector in a table that agrees with the flash. */
  lemma StoreRead(f: Flash, cap: nat, s: nat, info: SecInfo)
    requires FlashOk(f, cap) && s < |f| && info.sec == s
    ensures info.ok == f[s].ok && (info.ok ==> Agrees(f, cap, info, {})) && (!info.ok ==> info.store == STORE_UNUSED) ==>
              info.store == f[s].store
  {
    assert SectorOk(f[s], cap);
  }

  lemma OldestOrFirst(f: Flash, cap: nat, t: SecTable, o: nat)
    requires f != [] && (Zeroed(t) || Coherent(f, cap, t, {}))
    requires (Zeroed(t) ==> o == 0) && (Coherent(f, cap, t, {}) ==> IsOldest(f, o))
    ensures o < |f|
  {
  }

  lemma NoRecords(f: Flash, cap: nat, s: nat)
    requires FlashOk(f, cap) && s < |f|
    ensures !f[s].ok || f[s].store !in {STORE_USING, STORE_FULL} ==> f[s].recs == []
  {
    assert SectorOk(f[s], cap);
  }

  lemma SameLost(f: Flash, g: Flash, s: nat, p: Promise)
    requires s < |f| && f[s].recs == [] && g == f[s := FORMATTED]
    ensures Losing(p, Lost(f, g)) == p
  {
    forall b | Kept(f, b) ensures Stored(g, At(f, b).key) {
      assert Kept(g, b);
    }
    forall b | Kept(g, b) ensures Stored(f, At(g, b).key) {
      assert Kept(f, b);
    }
    SameStored(f, g);
    LostNone(f, g, p);
  }

  lemma AllSame(f: Flash, g: Flash)
    requires |g| == |f| && (forall s: nat :: s < |f| ==> f[s] == FORMATTED) && forall s: nat :: s < |g| ==> g[s] == FORMATTED
    ensures g == f
  {
  }

  lemma BareIdle(f: Flash, cap: nat, s: nat)
    requires FlashOk(f, cap) && s < |f| && f[s].recs != [] && !f[s].recs[0].hdr
    ensures !Kept(f, Addr(s, 0))
  {
    assert SectorOk(f[s], cap);
    assert RecOk(f[s].recs[0], true);
  }

  // what resuming an interrupted collection does

  ghost predicate Resumed(f0: Flash, f: Flash, start: nat, j: nat, cap: nat, starved: bool) {
    && start < |f0| && Collected(f0, f, starved)
    && (NoGc(f0) ==> f == f0 && !starved)
    && (forall s: nat :: Doomed(f0, s, cap) && f0[s].dirty == DIRTY_GC && EmptyCount(f0) <= GC_EMPTY_THRESHOLD ==>
          f == if StepOf(start, s, |f0|) < j then f0[s := FORMATTED] else f0)
  }

  lemma ResumedStart(f: Flash, start: nat, cap: nat)
    requires start < |f|
    ensures Resumed(f, f, start, 0, cap, false)
  {
    hide Doomed;
    CollectedNone(f);
  }

  lemma ResumedGc(f0: Flash, f: Flash, start: nat, j: nat, cap: nat, starved: bool)
    requires Resumed(f0, f, start, j, cap, starved) && start < |f| && j < |f| && f[SectorAt(start, j, |f|)].dirty == DIRTY_GC
    ensures !NoGc(f0)
  {
    hide Doomed;
  }

  lemma ResumedNext(f0: Flash, f: Flash, g: Flash, start: nat, j: nat, cap: nat, starved: bool, more: bool)
    requires Resumed(f0, f, start, j, cap, starved) && Collected(f, g, more)
    requires start < |f| && j < |f| && f[SectorAt(start, j, |f|)].dirty == DIRTY_GC
    requires EmptyCount(f) <= GC_EMPTY_THRESHOLD ==> forall s: nat :: Doomed(f, s, cap) ==> s < |f| && g == f[s := FORMATTED]
    ensures Resumed(f0, g, start, j + 1, cap, starved || more) && StoredKeys(g) <= StoredKeys(f) <= StoredKeys(f0)
  {
    hide StoredKeys; hide EmptyCount;
    CollectedTwice(f0, f, g, starved, more);
    hide Collected;
    var u := SectorAt(start, j, |f|);
    CollectedSize(f0, f, starved);
    forall s: nat | Doomed(f0, s, cap) && f0[s].dirty == DIRTY_GC && EmptyCount(f0) <= GC_EMPTY_THRESHOLD
      ensures g == if StepOf(start, s, |f0|) < j + 1 then f0[s := FORMATTED] else f0
    {
      DoomedDone(f0, s, cap);
      assert f == f0;
      DoomedAlone(f0, s, u, cap);
      assert StepOf(start, u, |f0|) == j;
    }
  }

  /** One of the first `j` sectors of the walk carries the mark of a collection. */
  ghost predicate GcSeen(f: Flash, start: nat, j: nat) {
    start < |f| && exists s: nat :: s < |f| && StepOf(start, s, |f|) < j && f[s].dirty == DIRTY_GC
  }

  /** The first mark makes it collect every dirty sector, if no more than the reserve is EMPTY; nothing else changes. */
  ghost predicate Finished(f0: Flash, f: Flash, start: nat, o: nat, j: nat, cap: nat, size: nat) {
    && |f| == |f0| && start < |f0|
    && if GcSeen(f0, start, j) && EmptyCount(f0) <= GC_EMPTY_THRESHOLD then
         NothingDirty(f) && Stopped(f0, f, start, o, cap, size)
       else f == f0 && o == start
  }

  lemma ErasedUnmarked(f: Flash, cap: nat, s: nat)
    requires FlashOk(f, cap) && s < |f| && !f[s].ok
    ensures f[s].dirty != DIRTY_GC
  {
    assert SectorOk(f[s], cap);
  }

  lemma FinishedStart(f: Flash, start: nat, cap: nat, size: nat)
    requires start < |f|
    ensures Finished(f, f, start, start, 0, cap, size)
  {
    hide EmptyCount; hide Stopped;
  }

  lemma FinishedSkip(f0: Flash, f: Flash, start: nat, o: nat, j: nat, cap: nat, size: nat)
    requires Finished(f0, f, start, o, j, cap, size) && start < |f| && j < |f|
    requires f[SectorAt(start, j, |f|)].dirty != DIRTY_GC
    ensures Finished(f0, f, start, o, j + 1, cap, size)
  {
    hide EmptyCount; hide Stopped; hide StepOf;
    StepsBack(start, j, |f|);
    if GcSeen(f0, start, j + 1) && f == f0 {
      assert GcSeen(f0, start, j);
    }
    if GcSeen(f0, start, j) {
      assert GcSeen(f0, start, j + 1);
    }
  }

  lemma FinishedNext(f0: Flash, f: Flash, g: Flash, start: nat, o: nat, o': nat, j: nat, cap: nat, size: nat)
    requires Finished(f0, f, start, o, j, cap, size) && start < |f| == |g| && j < |f|
    requires f[SectorAt(start, j, |f|)].dirty == DIRTY_GC
    requires EmptyCount(f) > GC_EMPTY_THRESHOLD ==> g == f && o' == o
    requires EmptyCount(f) <= GC_EMPTY_THRESHOLD ==>
               NothingDirty(g) && Stopped(f, g, o, o', cap, size)
    ensures Finished(f0, g, start, o', j + 1, cap, size)
  {
    hide EmptyCount; hide Stopped; hide StepOf;
    StepsBack(start, j, |f|);
    assert !NothingDirty(f);
    assert GcSeen(f0, start, j + 1);
  }

  lemma FinishedEnd(f0: Flash, f: Flash, start: nat, o: nat, cap: nat, size: nat)
    requires Finished(f0, f, start, o, |f|, cap, size)
    ensures NoGc(f0) || EmptyCount(f0) > GC_EMPTY_THRESHOLD ==> f == f0 && o == start
    ensures !NoGc(f0) && EmptyCount(f0) <= GC_EMPTY_THRESHOLD ==>
              NothingDirty(f) && Stopped(f0, f, start, o, cap, size)
  {
    hide EmptyCount; hide Stopped; hide NothingDirty;
    if s: nat :| s < |f0| && f0[s].dirty == DIRTY_GC {
      assert StepOf(start, s, |f0|) < |f|;
      assert GcSeen(f0, start, |f|);
    }
  }

  lemma StepsBack(start: nat, j: nat, n: nat)
    requires start < n && j < n
    ensures StepOf(start, SectorAt(start, j, n), n) == j
    ensures forall s: nat :: s < n && StepOf(start, s, n) == j ==> s == SectorAt(start, j, n)
  {
  }

  lemma StepBack(start: nat, s: nat, j: nat, n: nat)
    requires start < n && s < n && j < n
    ensures StepOf(start, s, n) == j ==> s == SectorAt(start, j, n)
  {
  }

  lemma ResumedSkip(f0: Flash, f: Flash, start: nat, j: nat, cap: nat, starved: bool)
    requires Resumed(f0, f, start, j, cap, starved) && start < |f| && j < |f|
    requires var u := SectorAt(start, j, |f|); !f[u].ok || f[u].dirty != DIRTY_GC
    ensures Resumed(f0, f, start, j + 1, cap, starved)
  {
    CollectedSize(f0, f, starved);
    hide Collected; hide EmptyCount;
    forall s: nat | Doomed(f0, s, cap) && f0[s].dirty == DIRTY_GC && EmptyCount(f0) <= GC_EMPTY_THRESHOLD
      ensures f == if StepOf(start, s, |f0|) < j + 1 then f0[s := FORMATTED] else f0
    {
      StepBack(start, s, j, |f0|);
    }
  }

  /** A content with a collection cut short, in which nothing that the sector still holds finds room. */
  ghost predicate CutShort(f: Flash, s: nat, cap: nat) {
    Doomed(f, s, cap) && f[s].dirty == DIRTY_GC && EmptyCount(f) <= GC_EMPTY_THRESHOLD
  }

  lemma ResumedEnd(f0: Flash, f1: Flash, f2: Flash, start: nat, cap: nat, starved: bool)
    requires FlashOk(f0, cap) && FlashOk(f1, cap) && f1 == AtBoot(f0)
    requires Resumed(f1, f2, start, |f2|, cap, starved) && (SafeResume(f1, start, cap) ==> !starved)
    requires !NoGc(f1) ==> FaredAll(f1, f2, start, cap, starved)
    requires EmptyCount(f2) > 0 || (f2 == f1 && NoGc(f1))
    ensures |f2| == |f0| && StoredKeys(f2) <= StoredKeys(f0) && Lost(f1, f2) == Lost(f0, f2)
    ensures EmptyCount(f0) > 0 ==> !starved && EmptyCount(f2) > 0
    ensures Spare(f0) ==> EmptyCount(f2) > 0
    ensures EmptyCount(f2) > 0 || NoGc(f2)
    ensures SafeAtBoot(f0, start, cap) ==> !starved
    ensures !starved ==> Lost(f0, f2) == {}
    ensures !NoGc(f0) ==> Costs(AtBoot(f0), start, cap, Lost(f0, f2))
    ensures forall s: nat :: CutShort(AtBoot(f0), s, cap) ==> s < |f0| && f2 == AtBoot(f0)[s := FORMATTED]
    ensures |PendSet(f2)| <= |PendSet(f0)| && (PendingDirty(f0) ==> PendingDirty(f2))
    ensures forall b :: Torn(f2, b) ==> Torn(f0, b)
    ensures NoGc(f0) ==> f2 == AtBoot(f0)
  {
    BootFacts(f0, cap);
    BootHeaders(f0, cap);
    hide StoredKeys; hide EmptyCount; hide PendSet; hide PendingDirty; hide Doomed; hide Torn; hide AtBoot; hide FlashOk;
    hide Spare; hide NoGc; hide Safe; hide Costs;
    ResumedParts(f1, f2, start, cap, starved);
    CollectedFacts(f1, f2, starved);
    assert Lost(f1, f2) == Lost(f0, f2);
  }

  lemma ResumedNothing(f0: Flash, f: Flash, start: nat, j: nat, cap: nat, starved: bool)
    requires Resumed(f0, f, start, j, cap, starved)
    ensures NoGc(f0) ==> f == f0 && !starved
  {
    hide Doomed; hide Collected;
  }

  lemma NotStarved(f: Flash, g: Flash, start: nat, cap: nat, starved: bool)
    requires (NoGc(f) ==> !starved) && (!NoGc(f) ==> FaredAll(f, g, start, cap, starved))
    ensures SafeResume(f, start, cap) ==> !starved
  {
    hide Safe;
  }

  lemma ResumedParts(f0: Flash, f: Flash, start: nat, cap: nat, starved: bool)
    requires Resumed(f0, f, start, |f|, cap, starved)
    ensures Collected(f0, f, starved) && (NoGc(f0) ==> f == f0 && !starved)
    ensures forall s: nat :: Doomed(f0, s, cap) && s < |f0| && f0[s].dirty == DIRTY_GC && EmptyCount(f0) <= GC_EMPTY_THRESHOLD ==>
              f == f0[s := FORMATTED]
  {
    CollectedSize(f0, f, starved);
    hide Collected; hide EmptyCount; hide Doomed;
  }

  lemma GiveUpStep(f: Flash, cap: nat, a: Addr, p: Promise, steady: bool)
    requires Recoverable(f, cap, p) && Quiet(f, steady)
    requires In(f, a) && At(f, a).status == PRE_WRITE && (a.idx == 0 || At(f, a).hdr)
    ensures var g := WithStatus(f, a, ERR_HDR); NorStep(f, g) && Recoverable(g, cap, p) && Quiet(g, steady)
    ensures Torn(f, a) && !Live(f, a)
  {
    var kv := At(f, a);
    SectorFacts(f, cap, a.sec);
    hide FlashOk; hide Keeps; hide EmptyCount; hide PendingDirty; hide Free; hide Apart; hide CalmBy; hide Used;
    InUse(f, cap, a);
    SettledFirst(f, a.sec);
    QuietStatus(f, a, ERR_HDR, steady);
    StepStatus(f, cap, a, ERR_HDR);
    KeepsIdle(f, a, kv.(status := ERR_HDR), p);
    CountRec(f, a, kv.(status := ERR_HDR));
    StatusTidy(f, a, ERR_HDR);
  }

  lemma InUse(f: Flash, cap: nat, a: Addr)
    requires FlashOk(f, cap) && In(f, a)
    ensures f[a.sec].store == STORE_USING
  {
    assert SectorOk(f[a.sec], cap);
  }

  lemma GiveUpCached(f: Flash, a: Addr, c: Table)
    requires In(f, a) && !Live(f, a)
    ensures CacheOk(f, c, {}) ==> CacheOk(WithStatus(f, a, ERR_HDR), c, {})
  {
    hide NameCrc;
    if CacheOk(f, c, {}) {
      CacheFollowsIdle(f, a, c);
    }
  }

  lemma KeepReserve(f: Flash, cap: nat, p: Promise, reserve: nat)
    requires Recoverable(f, cap, p) && p.reserve == 0 && reserve == if EmptyCount(f) > 0 then 1 else 0
    ensures Recoverable(f, cap, p.(reserve := reserve))
  {
    hide FlashOk; hide Keeps; hide EmptyCount; hide PendingDirty;
    OtherReserve(f, p, p.(reserve := reserve));
  }

  lemma KeptReserve(f: Flash, cap: nat, p: Promise, reserve: nat)
    requires Recoverable(f, cap, p.(reserve := reserve)) && p.reserve == 0
    ensures Recoverable(f, cap, p) && (reserve > 0 ==> EmptyCount(f) > 0)
  {
    hide FlashOk; hide Keeps; hide EmptyCount; hide PendingDirty;
    OtherReserve(f, p.(reserve := reserve), p);
  }

  lemma PassDone(f0: Flash, f: Flash, oldest: nat, cap: nat)
    requires oldest < |f0| && Passing(f0, f, oldest, false, cap, |f0|, 0)
    ensures PassOutcome(f0, f, oldest, false, cap, Done)
  {
  }

  /** What one pass of the recovery walk may have done, as far as the retries go. */
  ghost predicate PassEffect(f0: Flash, f: Flash, oldest: nat, cap: nat, res: Pass) {
    && StoredKeys(f) == StoredKeys(f0) && |PendSet(f)| <= |PendSet(f0)|
    && (forall b :: Torn(f, b) <==> Torn(f0, b) && res != TornAt(b)) && (res.TornAt? ==> Torn(f0, res.at))
    && (PendingDirty(f0) ==> PendingDirty(f))
    && (PendingDirty(f0) && NothingDirty(f0) ==> !res.StarvedAt?)
    && (RoomyPending(f0, cap) ==> !res.StarvedAt? && RoomyPending(f, cap)) && (NoGc(f0) ==> NoGc(f))
    && (res.StarvedAt? ==> EmptyCount(f) <= GC_EMPTY_THRESHOLD)
    && (Stuck(f0, oldest, cap) ==> res.StarvedAt? && f == f0 && NothingDirty(f) && EmptyCount(f) > 0)
    && (NothingDirty(f0) && res.StarvedAt? && EmptyCount(f) > 0 ==>
          && (Stuck(f0, oldest, cap) || |PendSet(f)| < |PendSet(f0)|)
          && (OnePending(f0) ==> Stuck(f0, oldest, cap)))
  }

  lemma PassHas(f0: Flash, f: Flash, oldest: nat, cap: nat, res: Pass)
    requires oldest < |f0| && PassOutcome(f0, f, oldest, false, cap, res) && FlashOk(f, cap)
    ensures PassEffect(f0, f, oldest, cap, res)
  {
    hide PassOutcome; hide StoredKeys; hide PendSet; hide Torn; hide PendingDirty; hide NothingDirty; hide EmptyCount;
    hide Stuck; hide FlashOk; hide RoomyPending; hide NoGc;
    PassHeaders(f0, f, oldest, cap, res);
    if RoomyPending(f0, cap) {
      PassRoomy(f0, f, oldest, cap, res);
    }
    PassStored(f0, f, oldest, false, cap, res);
    PassPends(f0, f, oldest, cap, res);
    PassFacts(f0, f, oldest, cap, res);
    if res.StarvedAt? {
      StarvedFew(f0, f, oldest, cap, res);
      if NothingDirty(f0) && EmptyCount(f) > 0 {
        StuckOrLess(f0, f, oldest, cap, res);
        if OnePending(f0) {
          OneStuck(f0, f, oldest, cap, res);
        }
      }
    }
  }

  /** A record is refused only if no EMPTY sector is left but the reserve. */
  lemma StarvedFew(f0: Flash, f: Flash, oldest: nat, cap: nat, res: Pass)
    requires oldest < |f0| && PassOutcome(f0, f, oldest, false, cap, res) && FlashOk(f, cap) && res.StarvedAt?
    ensures EmptyCount(f) <= GC_EMPTY_THRESHOLD
  {
    hide Choose; hide EmptyCount; hide FlashOk; hide FirstGranted; hide AnyResolved; hide ResolvedKey; hide HasLive;
    var a := res.at;
    StarvedPends(f0, f, oldest, cap, res);
    assert At(f, a).len == At(f0, a).len;
    hide Passing;
    ChooseExact(f, oldest, At(f, a).len, false, cap);
    EmptyCountWitness(f);
    if EmptyCount(f) > GC_EMPTY_THRESHOLD {
      var s: nat :| s < |f| && f[s].ok && f[s].store == STORE_EMPTY;
      EmptyFits(f, cap, s, a);
    }
  }

  lemma EmptyFits(f: Flash, cap: nat, s: nat, a: Addr)
    requires FlashOk(f, cap) && In(f, a) && s < |f| && f[s].store == STORE_EMPTY
    ensures Fits(f[s], At(f, a).len, false, cap)
  {
    SectorFacts(f, cap, a.sec);
    EmptySectors(f, cap, s);
    UsedPrefix(f[a.sec].recs, a.idx);
    FreeOfNone();
  }

  /** The retries of the walk: `left` of `fuel` are left. */
  ghost predicate Retrying(f0: Flash, o0: nat, walk: Flash, f: Flash, oldest: nat, cap: nat, res: Pass, gc: bool,
                           fuel: nat, left: nat) {
    && left <= fuel && PassEffect(walk, f, oldest, cap, res)
    && (gc <==> res.StarvedAt? && 0 < EmptyCount(f) <= GC_EMPTY_THRESHOLD)
    && StoredKeys(f) == StoredKeys(f0) && |PendSet(f)| <= |PendSet(f0)|
    && (forall b :: Torn(f, b) ==> Torn(f0, b) && res != TornAt(b)) && (res.TornAt? ==> Torn(f0, res.at))
    && (PendingDirty(f0) ==> PendingDirty(f) && (left < fuel ==> !res.StarvedAt?))
    && (RoomyPending(f0, cap) ==> !gc && RoomyPending(f, cap)) && (EmptyCount(f) > 0 || (NoGc(f0) ==> NoGc(f)))
    && (gc ==> Stuck(walk, oldest, cap) || |PendSet(f)| + (fuel - left) <= |PendSet(f0)|)
    && (NothingDirty(f0) && OnePending(f0) && gc ==> Stuck(f0, o0, cap))
    && (Stuck(f0, o0, cap) ==> f == f0 && oldest == o0 && NothingDirty(f) && gc)
  }

  lemma RetryStart(f0: Flash, f: Flash, oldest: nat, cap: nat, res: Pass, gc: bool, fuel: nat)
    requires PassEffect(f0, f, oldest, cap, res)
    requires gc <==> res.StarvedAt? && 0 < EmptyCount(f) <= GC_EMPTY_THRESHOLD
    ensures Retrying(f0, oldest, f0, f, oldest, cap, res, gc, fuel, fuel)
  {
    hide StoredKeys; hide PendSet; hide Torn; hide PendingDirty; hide NothingDirty; hide EmptyCount;
    hide Stuck; hide OnePending; hide RoomyPending; hide NoGc;
  }

  lemma RetryGc(f: Flash, g: Flash, starved: bool, p: Promise)
    requires Collected(f, g, starved) && EmptyCount(f) > 0
    ensures !starved && EmptyCount(g) > 0 && Losing(p, Lost(f, g)) == p && |g| == |f|
  {
    hide StoredKeys; hide EmptyCount; hide PendingDirty;
    LostNone(f, g, p);
  }

  lemma RetryNext(f0: Flash, o0: nat, w1: Flash, f1: Flash, o1: nat, r1: Pass, f2: Flash, g: Flash, oldest: nat, cap: nat,
                  res: Pass, starved: bool, gc: bool, fuel: nat, left: nat)
    requires Retrying(f0, o0, w1, f1, o1, cap, r1, true, fuel, left) && left > 0
    requires Collected(f1, f2, starved) && NothingDirty(f2) && (NothingDirty(f1) ==> f2 == f1 && oldest == o1)
    requires PassEffect(f2, g, oldest, cap, res) && EmptyCount(g) > 0
    requires gc <==> res.StarvedAt? && 0 < EmptyCount(g) <= GC_EMPTY_THRESHOLD
    ensures Retrying(f0, o0, f2, g, oldest, cap, res, gc, fuel, left - 1)
  {
    CollectedFacts(f1, f2, starved);
    hide StoredKeys; hide PendSet; hide Torn; hide PendingDirty; hide NothingDirty; hide EmptyCount;
    hide Stuck; hide OnePending; hide RoomyPending; hide NoGc;
    hide Collected;
  }

  lemma RetryEnd(f0: Flash, o0: nat, walk: Flash, f: Flash, oldest: nat, cap: nat, res: Pass, gc: bool, fuel: nat, left: nat)
    requires Retrying(f0, o0, walk, f, oldest, cap, res, gc, fuel, left) && (gc ==> left == 0)
    ensures StoredKeys(f) == StoredKeys(f0) && |PendSet(f)| <= |PendSet(f0)|
    ensures (forall b :: Torn(f, b) ==> Torn(f0, b) && res != TornAt(b)) && (res.TornAt? ==> Torn(f0, res.at))
    ensures (PendingDirty(f0) ==> PendingDirty(f)) && (PendingDirty(f0) && fuel > 0 ==> !gc)
    ensures EmptyCount(f) > 0 && !gc ==> !res.StarvedAt?
    ensures EmptyCount(f) > 0 || (NoGc(f0) ==> NoGc(f))
    ensures RoomyPending(f0, cap) ==> !gc && RoomyPending(f, cap)
    ensures fuel > |PendSet(f0)| ==> (gc <==> Stuck(walk, oldest, cap))
    ensures NothingDirty(f0) && OnePending(f0) ==> (gc <==> Stuck(f0, o0, cap))
  {
    hide StoredKeys; hide PendSet; hide Torn; hide PendingDirty; hide NothingDirty; hide EmptyCount;
    hide Stuck; hide OnePending; hide RoomyPending; hide NoGc;
  }

  lemma SameLostKeys(f0: Flash, f: Flash, g: Flash)
    requires StoredKeys(g) == StoredKeys(f)
    ensures Lost(f0, g) == Lost(f0, f)
  {
  }

  lemma LoadTorn(f0: Flash, f2: Flash, f: Flash, res: Pass)
    requires forall b :: Torn(f2, b) ==> Torn(f0, b)
    requires (forall b :: Torn(f, b) ==> Torn(f2, b) && res != TornAt(b)) && (res.TornAt? ==> Torn(f2, res.at))
    ensures TornSet(f) <= TornSet(f0) && (res.TornAt? ==> TornSet(f) < TornSet(f0))
  {
    hide TornSet; hide Torn;
    if res.TornAt? {
      assert res.at in TornSet(f0) && res.at !in TornSet(f);
    }
  }

  lemma QuietNoGc(f: Flash)
    requires NothingDirty(f)
    ensures NoGc(f)
  {
  }

  lemma UsableHas(f: Flash, names: set<Key>)
    requires Usable(f, names)
    ensures NoPending(f) && EmptyCount(f) > 0 && GoodNames(names) && View(f).Keys <= names
  {
  }
}
