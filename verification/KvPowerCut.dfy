/**
 From a power cut to a usable database.
 */
module KvPowerCut {
  import opened FdbDef
  import opened KvAlloc
  import opened KvBoot
  import opened KvCache
  import opened KvChange
  import opened KvDb
  import opened KvEffects
  import opened KvFlash
  import opened KvGuard
  import opened KvRecovery
  import opened KvSpace
  import opened Wrappers

  lemma CalmIs(f: Flash)
    requires Calm(f)
    ensures CalmBy(f, Steady(f))
  {
  }

  lemma QuietIsCalm(f: Flash, steady: bool)
    requires Quiet(f, steady)
    ensures Calm(f)
  {
    hide Settled;
  }

  lemma RecoverableOk(f: Flash, cap: nat, p: Promise)
    requires Recoverable(f, cap, p)
    ensures FlashOk(f, cap)
  {
  }

  /** Power up again and again until a load no longer stops at a torn record.  `content` is what a power
      cut left behind: any content that the history of an operation with promise `p` contains. */
  method RebootUntilClean(content: Flash, cap: nat, tableSize: nat, sectorTableSize: nat, fuel: nat,
                          ghost names: set<Key>, ghost p: Promise)
    returns (db: KvDatabase, done: bool, res: Pass, ghost walk: Flash)
    requires 2 <= |content| && KV_HDR + REMAIN_THRESHOLD < cap && 0 < tableSize <= 0xFFFF && 0 < sectorTableSize
    requires Recoverable(content, cap, p) && p.reserve == 0 && Calm(content)
    ensures fresh(db) && fresh(db.kvCache) && fresh(db.sectorCache) && db.cap == cap && db.names == names
    ensures db.Base() && db.CacheBase() && Quiet(db.flash, db.steady)
    // exactly the keys are lost that no record stores any more
    ensures Recoverable(db.flash, cap, Losing(p, Lost(content, db.flash)))
    // none with an EMPTY sector in reserve or with room elsewhere; without either, some
    ensures EmptyCount(content) > 0 ==> Lost(content, db.flash) == {} && EmptyCount(db.flash) > 0
    ensures SafeAtBoot(content, 0, cap) ==> Lost(content, db.flash) == {}
    ensures !NoGc(content) ==> Costs(AtBoot(content), 0, cap, Lost(content, db.flash))
    ensures Spare(content) ==> EmptyCount(db.flash) > 0
    // it ends if a collection can get at every pending record, or the only one finds room, and in general if the last
    // walk is not stuck
    ensures PendingDirty(content) && fuel > 0 ==> done
    ensures RoomyPending(AtBoot(content), cap) ==> done
    ensures fuel > |PendSet(content)| ==> done || Stuck(walk, db.oldest, cap)
    ensures OnlyWithdrawn(content) ==> (done <==> !Stuck(AtBoot(content), 0, cap))
    ensures EmptyCount(db.flash) > 0 && done ==> res.Done?
    ensures done ==> !res.TornAt? && db.model == View(db.flash)
    // every key then reads as before or as after, and only lost keys are missing
    ensures done && res.Done? ==>
              && NoPending(db.flash) && NoTorn(db.flash) && Reads(db.flash, db.model)
              && OldOrNewValues(db.model, p) && (forall k :: Owed(p, k) && k !in Lost(content, db.flash) ==> k in db.model)
    ensures done && Spare(content) && SafeAtBoot(content, 0, cap) && GoodNames(names) && p.before.Keys + p.after.Keys <= names ==>
              db.Valid()
  {
    hide *;
    RecoverableOk(content, cap, p);
    CalmIs(content);
    db := new KvDatabase.PowerOn(cap, tableSize, sectorTableSize, content, names);
    ghost var starved, start;
    done, res, starved, walk, start := db.Load(fuel, p);
    WithdrawnHas(content, db.flash);
    while done && res.TornAt?
      invariant fresh(db) && fresh(db.kvCache) && fresh(db.sectorCache) && db.cap == cap && db.names == names
      invariant db.Base() && db.CacheBase() && Quiet(db.flash, db.steady)
      invariant Recoverable(db.flash, cap, Losing(p, Lost(content, db.flash))) && StoredKeys(db.flash) <= StoredKeys(content)
      invariant EmptyCount(content) > 0 ==> !starved && Lost(content, db.flash) == {} && EmptyCount(db.flash) > 0
      invariant SafeAtBoot(content, 0, cap) ==> !starved && Lost(content, db.flash) == {}
      invariant !NoGc(content) ==> Costs(AtBoot(content), 0, cap, Lost(content, db.flash))
      invariant (EmptyCount(db.flash) > 0 || NoGc(db.flash)) && (Spare(content) ==> EmptyCount(db.flash) > 0)
      invariant db.oldest < |walk| && PassOutcome(walk, db.flash, db.oldest, false, cap, res)
      invariant |PendSet(db.flash)| <= |PendSet(content)|
      invariant PendingDirty(content) ==> PendingDirty(db.flash) && (fuel > 0 ==> done)
      invariant RoomyPending(AtBoot(content), cap) ==> done && RoomyPending(db.flash, cap)
      invariant EmptyCount(db.flash) > 0 && done ==> !res.StarvedAt?
      invariant fuel > |PendSet(content)| ==> done || Stuck(walk, db.oldest, cap)
      invariant OnlyWithdrawn(content) ==> !res.TornAt? && (done <==> !Stuck(AtBoot(content), 0, cap))
      invariant done ==> db.model == View(db.flash)
      invariant done && !starved && Usable(db.flash, names) ==> db.Valid()
      decreases TornSet(db.flash), if done && res.TornAt? then 1 else 0
    {
      ghost var f1 := db.flash;
      db.BaseHas();
      QuietIsCalm(f1, db.steady);
      CalmIs(f1);
      SafeNow(f1, cap);
      RoomyAgain(f1, cap, db.steady);
      db := new KvDatabase.PowerOn(cap, tableSize, sectorTableSize, db.flash, names);
      LosingTwice(p, Lost(content, f1), {});
      done, res, starved, walk, start := db.Load(fuel, Losing(p, Lost(content, f1)));
      LostTwice(content, f1, db.flash, p);
      SameLoss(content, f1, db.flash);
      EmptyIsSpareNow(f1);
    }
    if done && res.Done? {
      PassExact(walk, db.flash, db.oldest, false, cap, res);
      DonePass(walk, db.flash, db.oldest, res);
      LostIs(p, Lost(content, db.flash));
      ReadsAsPromised(db.flash, cap, Losing(p, Lost(content, db.flash)), names);
      ClearTorn(walk, db.flash, res);
    }
  }

  /** After one load the next one loses nothing. */
  lemma SafeNow(f: Flash, cap: nat)
    requires FlashOk(f, cap)
    ensures EmptyCount(f) > 0 || NoGc(f) ==> SafeAtBoot(f, 0, cap)
  {
    BootHeaders(f, cap);
    hide AtBoot; hide EmptyCount; hide FlashOk; hide Spare; hide NoGc;
  }

  lemma EmptyIsSpareNow(f: Flash)
    ensures EmptyCount(f) > 0 ==> Spare(f)
  {
  }

  lemma RoomyAgain(f: Flash, cap: nat, steady: bool)
    requires Quiet(f, steady)
    ensures RoomyPending(f, cap) ==> AtBoot(f) == f
  {
    hide Choose; hide CalmBy; hide AtBoot; hide Settled;
    if RoomyPending(f, cap) {
      BootAgain(f);
    }
  }

  lemma SameLoss(f: Flash, g: Flash, h: Flash)
    requires StoredKeys(h) <= StoredKeys(g) <= StoredKeys(f)
    ensures Lost(g, h) == {} ==> Lost(f, h) == Lost(f, g)
  {
    hide StoredKeys;
    if Lost(g, h) == {} {
      assert StoredKeys(g) <= StoredKeys(h) by {
        assert forall k :: k in StoredKeys(g) && k !in StoredKeys(h) ==> k in Lost(g, h);
      }
    }
  }

  /** With nothing cut short and nothing to collect, at most one record is pending. */
  ghost predicate OnlyWithdrawn(f: Flash) { NoTorn(f) && NothingDirty(f) && OnePending(f) }

  lemma WithdrawnHas(f: Flash, g: Flash)
    ensures OnlyWithdrawn(f) ==> NothingDirty(f) && OnePending(f) && !(TornSet(g) < TornSet(f))
  {
    if OnlyWithdrawn(f) {
      assert TornSet(f) == {};
    }
  }

  /** Each key has its value before or its value after. */
  ghost predicate OldOrNewValues(m: map<Key, Value>, p: Promise) {
    forall k :: k in m ==> (k in p.before && m[k] == p.before[k]) || (k in p.after && m[k] == p.after[k])
  }

  lemma LostIs(p: Promise, lost: set<Key>)
    ensures forall k :: Owed(p, k) && k !in lost ==> Owed(Losing(p, lost), k)
    ensures Losing(p, lost).before == p.before && Losing(p, lost).after == p.after
    ensures forall m :: OldOrNewValues(m, Losing(p, lost)) ==> OldOrNewValues(m, p)
  {
  }

  lemma DonePass(f: Flash, g: Flash, oldest: nat, res: Pass)
    requires oldest < |f| && res.Done?
    requires forall y :: Pend(g, y) <==> Pend(f, y) && !Reached(y, res, oldest, |f|)
    ensures NoPending(g)
  {
  }

  lemma ClearTorn(f: Flash, g: Flash, res: Pass)
    requires res.Done? && NoTorn(f) && forall b :: Torn(g, b) <==> Torn(f, b) && res != TornAt(b)
    ensures NoTorn(g)
  {
  }

  lemma ReadsAsPromised(f: Flash, cap: nat, p: Promise, names: set<Key>)
    requires Recoverable(f, cap, p) && NoPending(f)
    ensures Reads(f, View(f)) && OldOrNewValues(View(f), p) && forall k :: Owed(p, k) ==> k in View(f)
    ensures EmptyCount(f) > 0 && GoodNames(names) && p.before.Keys + p.after.Keys <= names ==> Usable(f, names)
  {
    hide FlashOk; hide Keeps; hide EmptyCount; hide View; hide Reads; hide PendingDirty; hide NameCrc;
    OldOrNew(f, p);
  }

  // ---------------------------------------------------------------- cut anywhere

  function Changed(m: map<Key, Value>, key: Key, value: Option<Value>): map<Key, Value> {
    if value.Some? then m[key := value.value] else m - {key}
  }

  /** No value ends in a byte that looks erased. */
  predicate SolidMap(m: map<Key, Value>) { forall k :: k in m ==> EndsSolid(NewRec(k, m[k])) }

  /** Which content a cut after `cut` steps leaves, if the operation began with `n` contents in the history. */
  function CutAt(n: nat, total: nat, cut: nat): (at: nat)
    requires 0 < n <= total
    ensures n - 1 <= at < total
  {
    if cut < total - n then n - 1 + cut else total - 1
  }

  /** Every content from the one before the operation on can be what is left. */
  lemma CutAnywhere(n: nat, total: nat, at: nat)
    requires 0 < n <= total && n - 1 <= at < total
    ensures exists cut :: CutAt(n, total, cut) == at
  {
    assert CutAt(n, total, at - (n - 1)) == at;
  }

  /** A set or a delete, the power cut after any of its steps, and reboots: the map is the old or the new one.  The
      reboots are tried if the free space stays known: always, but for the content that a database which counts
      everything has right after the first byte of a record behind another one.  They lose nothing while an EMPTY sector
      is left, as it is if there was room at once, or while the first sector to collect finds room elsewhere.  They are
      sure to end but for one step: the PRE_DELETE of an old record in a clean sector. */
  method CutAndReboot(db: KvDatabase, key: Key, value: Option<Value>, cut: nat, fuel: nat)
    returns (content: Flash, again: KvDatabase?, done: bool, ghost walk: Flash)
    requires db.Valid() && key in db.names && (value.None? || db.steady || EndsSolid(NewRec(key, value.value)))
    modifies db, db.kvCache, db.sectorCache
    ensures db.Valid() && 0 < |old(db.hist)| <= |db.hist|
    ensures content == db.hist[CutAt(|old(db.hist)|, |db.hist|, cut)]
    // what the cut has left
    ensures again != null <==> Calm(content)
    ensures if db.steady then Steady(content) || LeftBare(content) else Solid(content)
    ensures SolidMap(old(db.model)) && (value.Some? ==> EndsSolid(NewRec(key, value.value))) ==> Calm(content)
    ensures value.None? || Choose(old(db.flash), old(db.oldest), KvLen(key, value.value), false, db.cap).Some? ==>
              EmptyCount(content) > 0
    ensures EmptyCount(content) > 0 ==> SafeAtBoot(content, 0, db.cap)
    ensures PendingDirty(content) || (value.Some? && CutMarked(db.hist, content, key))
    // what the reboots make of it
    ensures again != null ==> fresh(again) && again.Base() && EmptyCount(again.flash) > 0
    ensures again != null && done && SafeAtBoot(content, 0, db.cap) ==>
              again.Valid() && again.model in {old(db.model), Changed(old(db.model), key, value)}
    ensures again != null && !NoGc(content) ==> Costs(AtBoot(content), 0, db.cap, Lost(content, again.flash))
    // when they end
    ensures again != null && fuel > 0 && PendingDirty(content) ==> done
    ensures again != null && RoomyPending(AtBoot(content), db.cap) ==> done
    ensures again != null && fuel > |PendSet(content)| ==> done || Stuck(walk, again.oldest, db.cap)
    // the one step: where nothing else is dirty or cut short, they end if and only if the load is not stuck
    ensures again != null && !PendingDirty(content) && NoTorn(content) && NothingDirty(content) ==>
              (done <==> !Stuck(AtBoot(content), 0, db.cap))
  {
    hide *;
    db.ValidHas();
    db.HistEnds();
    db.Promised();
    db.BaseHas();
    db.CacheBaseHas();
    ghost var h0, m, f0 := db.hist, db.model, db.flash;
    ghost var p := Changing(m, Changed(m, key, value)).(reserve := 0);
    SolidReads(f0, db.cap, m, db.steady);
    var n := |db.hist|;
    var err := db.SetKv(key, value);
    db.ValidHas();
    db.BaseHas();
    ghost var room := value.None? || Choose(old(db.flash), old(db.oldest), KvLen(key, value.value), false, db.cap).Some?;
    CutPlain(h0, db.hist, db.cap, m, key, value, room);
    var at := CutAt(n, |db.hist|, cut);
    content := db.hist[at];
    CutContent(h0, db.hist, f0, db.cap, m, key, value, room, at);
    CutNames(m, key, value, db.names);
    EmptyIsSpare(f0);
    db.HistKept(n - 1, at);
    CutCalm(content, db.cap, m, key, value, p, db.steady);
    db.HistSize(at);
    RecoverableOk(content, db.cap, p);
    SafeNow(content, db.cap);
    CutIsOne(db.hist, content, key);
    done := false;
    walk := content;
    if Calm(content) {
      var res, next;
      next, done, res, walk :=
        RebootUntilClean(content, db.cap, db.kvCache.Length, db.sectorCache.Length, fuel, db.names, p);
      again := next;
      if done && SafeAtBoot(content, 0, db.cap) {
        OldOrNewMap(m, key, value, next.model, p);
      }
    } else {
      again := null;
    }
  }

  /** What the power cut left is what the operation had just withdrawn from the content before. */
  ghost predicate CutMarked(h: seq<Flash>, g: Flash, key: Key) {
    exists j :: 0 < j < |h| && h[j] == g && CutMark(h[j - 1], g, key)
  }

  lemma CutIsOne(h: seq<Flash>, g: Flash, key: Key)
    requires PendingDirty(g) || CutMarked(h, g, key)
    ensures !PendingDirty(g) ==> OnePending(g)
    ensures NoTorn(g) && NothingDirty(g) && OnePending(g) ==> OnlyWithdrawn(g)
  {
    if !PendingDirty(g) {
      var j :| 0 < j < |h| && h[j] == g && CutMark(h[j - 1], g, key);
      var f := h[j - 1];
      var a :| Live(f, a) && At(f, a).key == key && f[a.sec].dirty == DIRTY_FALSE && g == WithStatus(f, a, PRE_DELETE);
      Rewritten(f, a, At(f, a).(status := PRE_DELETE));
      assert forall b :: Pend(g, b) ==> b == a || Pend(f, b);
    }
  }

  ghost predicate CutRun(h: seq<Flash>, h': seq<Flash>, cap: nat, m: map<Key, Value>, key: Key, value: Option<Value>,
                         room: bool)
  {
    var p := Changing(m, Changed(m, key, value)).(reserve := 0);
    && Ran(h, h', cap, p) && (room ==> Ran(h, h', cap, p.(reserve := 1)))
    && (value.None? ==> forall j :: |h| <= j < |h'| ==> PendingDirty(h'[j]))
    && (value.Some? ==> TidyRun(h, h', key))
  }

  lemma CutPlain(h: seq<Flash>, h': seq<Flash>, cap: nat, m: map<Key, Value>, key: Key, value: Option<Value>, room: bool)
    requires value.None? ==> room && Ran(h, h', cap, Changing(m, m - {key}).(tidy := true))
    requires value.Some? ==> Ran(h, h', cap, Changing(m, m[key := value.value]).(reserve := 0)) && TidyRun(h, h', key)
    requires value.Some? && room ==> Ran(h, h', cap, Changing(m, m[key := value.value]))
    ensures CutRun(h, h', cap, m, key, value, room) && |h| <= |h'| && forall j :: 0 <= j < |h| ==> h'[j] == h[j]
  {
    hide Recoverable; hide PendingDirty; hide TidyRun;
    var p := Changing(m, Changed(m, key, value));
    if value.None? {
      TidyAll(h, h', cap, p.(tidy := true));
      RanPlain(h, h', cap, p);
      RanWithoutReserve(h, h', cap, p);
    }
    assert p.(reserve := 0).(reserve := 1) == p;
  }

  lemma TidyAll(h: seq<Flash>, h': seq<Flash>, cap: nat, p: Promise)
    requires Ran(h, h', cap, p) && p.tidy
    ensures forall j :: |h| <= j < |h'| ==> PendingDirty(h'[j])
  {
    hide PendingDirty;
  }

  lemma CutContent(h: seq<Flash>, h': seq<Flash>, f: Flash, cap: nat, m: map<Key, Value>, key: Key, value: Option<Value>,
                   room: bool, at: nat)
    requires CutRun(h, h', cap, m, key, value, room) && h != [] && h[|h| - 1] == f && |h| - 1 <= at < |h'|
    requires Recoverable(f, cap, Exactly(m).(tidy := true)) && EmptyCount(f) > 0
    ensures Recoverable(h'[at], cap, Changing(m, Changed(m, key, value)).(reserve := 0))
    ensures room ==> EmptyCount(h'[at]) > 0
    ensures PendingDirty(h'[at]) || (value.Some? && CutMarked(h', h'[at], key))
  {
    hide FlashOk; hide Keeps; hide PendingDirty; hide EmptyCount; hide CutMark;
    var p := Changing(m, Changed(m, key, value)).(reserve := 0);
    if at == |h| - 1 {
      assert h'[at] == h[at];
      OtherTidy(f, Exactly(m).(tidy := true), Exactly(m));
      PromiseOpens(f, m, Changed(m, key, value));
      OtherReserve(f, Changing(m, Changed(m, key, value)), p);
    } else {
      assert Recoverable(h'[at], cap, p);
      if room {
        assert Recoverable(h'[at], cap, p.(reserve := 1));
      }
      if !PendingDirty(h'[at]) {
        assert CutMark(h'[at - 1], h'[at], key);
      }
    }
  }

  /** A database that does not count everything holds no value that ends in a byte that looks erased. */
  lemma SolidReads(f: Flash, cap: nat, m: map<Key, Value>, steady: bool)
    requires FlashOk(f, cap) && Reads(f, m) && Quiet(f, steady)
    ensures !steady ==> SolidMap(m)
  {
    hide Settled;
    if !steady {
      forall k | k in m ensures EndsSolid(NewRec(k, m[k])) {
        var a := LiveOne(f, k);
        assert Bound(m, At(f, a));
        assert EndsSolid(At(f, a));
        SameEnd(f, cap, a);
      }
    }
  }

  lemma SameEnd(f: Flash, cap: nat, a: Addr)
    requires FlashOk(f, cap) && Kept(f, a)
    ensures var r := At(f, a); EndsSolid(r) <==> EndsSolid(NewRec(r.key, r.value))
  {
    assert SectorOk(f[a.sec], cap);
    assert RecOk(At(f, a), a.idx == 0);
  }

  lemma CutCalm(f: Flash, cap: nat, m: map<Key, Value>, key: Key, value: Option<Value>, p: Promise, steady: bool)
    requires Recoverable(f, cap, p) && p.before == m && p.after == Changed(m, key, value)
    requires (steady ==> NearlySteady(f)) && (!steady ==> SolidMap(m))
    requires value.None? || steady || EndsSolid(NewRec(key, value.value))
    ensures if steady then Steady(f) || LeftBare(f) else Solid(f)
    ensures !steady ==> Calm(f)
    ensures SolidMap(m) && (value.Some? ==> EndsSolid(NewRec(key, value.value))) ==> Calm(f)
  {
    hide Steady; hide LeftBare; hide EndsSolid;
    if SolidMap(m) && (value.Some? ==> EndsSolid(NewRec(key, value.value))) {
      forall s: nat, i: nat | s < |f| && i < |f[s].recs| && Kept(f, Addr(s, i)) ensures EndsSolid(At(f, Addr(s, i))) {
        var a := Addr(s, i);
        KeptFacts(f, cap, a, p);
        SameEnd(f, cap, a);
      }
    }
  }

  lemma CutNames(m: map<Key, Value>, key: Key, value: Option<Value>, names: set<Key>)
    requires m.Keys <= names && key in names
    ensures var p := Changing(m, Changed(m, key, value)).(reserve := 0);
            && p.before.Keys + p.after.Keys <= names && p.before == m && p.after == Changed(m, key, value) && p.lost == {}
            && p.reserve == 0
  {
  }

  /** Every key old or new, none of the others missing: that is the old map or the new one. */
  lemma OldOrNewMap(m: map<Key, Value>, key: Key, value: Option<Value>, x: map<Key, Value>, p: Promise)
    requires p.before == m && p.after == Changed(m, key, value) && OldOrNewValues(x, p)
    requires forall k :: Owed(p, k) && k !in {} ==> k in x
    requires p.lost == {}
    ensures x in {m, Changed(m, key, value)}
  {
    var m' := Changed(m, key, value);
    forall k | k != key ensures k in x <==> k in m
    ensures k in x && k != key ==> x[k] == m[k] {
      assert k in m ==> Owed(p, k);
    }
    if key in x && (key !in m || x[key] != m[key]) {
      assert x == m';
    } else if key !in x && key in m {
      assert !Owed(p, key);
      assert x == m';
    } else {
      assert x == m;
    }
  }

  // ---------------------------------------------------------------- a boot that is cut

  /** A load that is itself cut after any of its steps, and then reboots: nothing is lost if neither of the two contents
      that the cuts have left would cost a key. */
  method CutLoadAndReboot(content: Flash, cap: nat, tableSize: nat, sectorTableSize: nat, cut: nat, fuel: nat,
                          ghost names: set<Key>, ghost p: Promise)
    returns (left: Flash, db: KvDatabase?, done: bool)
    requires 2 <= |content| && KV_HDR + REMAIN_THRESHOLD < cap && 0 < tableSize <= 0xFFFF && 0 < sectorTableSize
    requires Recoverable(content, cap, p) && p.reserve == 0 && Calm(content) && SafeAtBoot(content, 0, cap)
    ensures Recoverable(left, cap, p) && (Spare(content) ==> Spare(left))
    ensures Steady(content) ==> Steady(left) || LeftBare(left)
    ensures db != null <==> Calm(left)
    ensures db != null && done && SafeAtBoot(left, 0, cap) && Spare(content) ==>
              && fresh(db) && NoPending(db.flash) && Reads(db.flash, db.model)
              && OldOrNewValues(db.model, p) && (forall k :: Owed(p, k) ==> k in db.model)
              && (GoodNames(names) && p.before.Keys + p.after.Keys <= names ==> db.Valid())
    ensures db != null && PendingDirty(left) && fuel > 0 ==> done
  {
    hide *;
    RecoverableOk(content, cap, p);
    CalmIs(content);
    var first := new KvDatabase.PowerOn(cap, tableSize, sectorTableSize, content, names);
    ghost var h0 := first.hist;
    ghost var res1, starved, walk, start;
    done, res1, starved, walk, start := first.Load(fuel, p);
    first.BaseHas();
    LosingTwice(p, {}, {});
    RanPrefix(h0, first.hist, cap, p);
    first.HistMore(h0);
    var at := CutAt(1, |first.hist|, cut);
    left := first.hist[at];
    LeftByLoad(h0, first.hist, content, cap, p, at);
    if Spare(content) {
      first.HistKept(0, at);
    }
    first.HistCounted(at);
    StillSteady(content, left);
    first.HistSize(at);
    RecoverableOk(left, cap, p);
    done := false;
    if Calm(left) {
      var res, next;
      next, done, res, walk := RebootUntilClean(left, cap, tableSize, sectorTableSize, fuel, names, p);
      db := next;
      NoneMissing(p, left, next.flash);
    } else {
      db := null;
    }
  }

  lemma LeftByLoad(h: seq<Flash>, h': seq<Flash>, content: Flash, cap: nat, p: Promise, at: nat)
    requires h == [content] && Ran(h, h', cap, p) && Recoverable(content, cap, p) && at < |h'|
    ensures Recoverable(h'[at], cap, p) && h'[0] == content
  {
    hide Recoverable;
  }

  lemma StillSteady(f: Flash, g: Flash)
    requires Steady(f) ==> NearlySteady(g)
    ensures Steady(f) ==> Steady(g) || LeftBare(g)
  {
    hide Steady; hide LeftBare;
  }

  lemma NoneMissing(p: Promise, f: Flash, g: Flash)
    ensures Lost(f, g) == {} ==> forall k :: Owed(p, k) ==> Owed(p, k) && k !in Lost(f, g)
  {
  }

  // ---------------------------------------------------------------- one boot may not be enough

  /** `set_kv` cut while the new record was being programmed: one pass brings the old value back if and
      only if the old record comes before the torn one in the walk. */
  lemma SetCutOnePass(f: Flash, g: Flash, torn: Addr, oldKv: Addr, oldest: nat, cap: nat, res: Pass)
    requires oldest < |f| && PassOutcome(f, g, oldest, false, cap, res) && !res.StarvedAt?
    requires Torn(f, torn) && Pend(f, oldKv)
    requires forall b :: Torn(f, b) ==> b == torn
    requires forall b :: Pend(f, b) ==> b == oldKv
    requires !HasLive(f, At(f, oldKv).key)
    ensures HasLive(g, At(f, oldKv).key) <==> Before(oldKv, torn, oldest, |f|)
  {
    hide PassOutcome;
    hide Before;
    var k := At(f, oldKv).key;
    PassExact(f, g, oldest, false, cap, res);
    PassFacts(f, g, oldest, cap, res);
    assert res == TornAt(torn);
    assert HasLive(g, k) <==> exists y :: Pend(f, y) && At(f, y).key == k && Reached(y, res, oldest, |f|);
    assert Reached(oldKv, res, oldest, |f|) <==> Before(oldKv, torn, oldest, |f|);
  }
}
