/**
 Cuts that the code does not survive, in sectors of 4096 bytes.
 */
module KvWitness {
  import opened FdbDef
  import opened KvAlloc
  import opened KvBoot
  import opened KvChange
  import opened KvDb
  import opened KvDevice
  import opened KvEffects
  import opened KvFlash
  import opened KvPowerCut
  import opened KvRecovery
  import opened KvSpace
  import opened Wrappers

  /** The bytes behind the header of a sector of 4096 bytes. */
  const CAP: nat := 4080

  // ---------------------------------------------------------------- a collection that loses a key

  function Big(status: KvStatus, key: Key, value: Value): Rec { NewRec(key, value).(status := status) }

  const OLD_ONE: Rec := Rec(DELETED, true, [1], [], 25, true)

  lemma SpaceOne(r: Rec)
    requires RecOk(r, true) && r.hdr
    ensures Used([r]) == Free([r]) == r.len && Apart([r])
  {
    assert [] + [r] == [r];
    SpaceGrows([], r);
    FreeGrows([], r);
  }

  lemma SpaceTwo(r: Rec, q: Rec)
    requires RecOk(r, true) && RecOk(q, false) && r.hdr && q.hdr
    ensures Used([r, q]) == Free([r, q]) == r.len + q.len && Apart([r, q])
  {
    assert [] + [r] == [r] && [r] + [q] == [r, q];
    SpaceGrows([], r);
    FreeGrows([], r);
    SpaceGrows([r], q);
    FreeGrows([r], q);
  }

  lemma SpaceThree(r: Rec, q: Rec, s: Rec)
    requires RecOk(r, true) && RecOk(q, false) && RecOk(s, false) && r.hdr && q.hdr && s.hdr
    ensures Used([r, q, s]) == Free([r, q, s]) == r.len + q.len + s.len && Apart([r, q, s])
  {
    assert [r, q] + [s] == [r, q, s];
    SpaceTwo(r, q);
    SpaceGrows([r, q], s);
    FreeGrows([r, q], s);
  }

  /** Key `[1]` was set twice, key `[2]` once; the rest of the partition is EMPTY. */
  function Crowded(big: Value): Flash {
    [Sector(true, STORE_USING, DIRTY_TRUE, [OLD_ONE, Big(WRITE, [1], big), Big(WRITE, [2], big)]), FORMATTED]
  }

  function CrowdedMap(big: Value): map<Key, Value> { map[[1] := big, [2] := big] }

  /** Its collection, cut while it copied the last record of the sector. */
  function SpentReserve(big: Value): Flash
    requires |big| == 1575
  {
    [Sector(true, STORE_USING, DIRTY_GC, [OLD_ONE, Big(DELETED, [1], big), Big(PRE_DELETE, [2], big)]),
     Sector(true, STORE_USING, DIRTY_FALSE, [Big(WRITE, [1], big), Rec(PRE_WRITE, true, [2], big[..11], 1600, false)])]
  }

  lemma CrowdedOk(big: Value)
    requires |big| == 1575
    ensures var f := Crowded(big); FlashOk(f, CAP) && Orderly(f) && Steady(f) && EmptyCount(f) == 1
  {
    var f := Crowded(big);
    SpaceThree(f[0].recs[0], f[0].recs[1], f[0].recs[2]);
    FreeOfNone();
    hide Free; hide Used; hide Apart;
    assert SectorOk(f[0], CAP) && SectorOk(f[1], CAP);
    EmptyCountUpdate([f[0], f[0]], 1, FORMATTED);
    EmptyCountWitness([f[0], f[0]]);
    assert f == [f[0], f[0]][1 := FORMATTED];
  }

  lemma CrowdedReads(big: Value)
    requires |big| == 1575
    ensures var f, m := Crowded(big), CrowdedMap(big);
            Reads(f, m) && NoPending(f) && Live(f, Addr(0, 1)) && Live(f, Addr(0, 2))
  {
    var f := Crowded(big);
    assert Live(f, Addr(0, 1)) && Live(f, Addr(0, 2));
    assert forall a :: Live(f, a) ==> a == Addr(0, 1) || a == Addr(0, 2);
  }

  lemma SpentReserveOk(big: Value)
    requires |big| == 1575
    ensures var f := SpentReserve(big);
            && FlashOk(f, CAP) && Orderly(f) && Steady(f) && EmptyCount(f) == 0
            && Free(f[0].recs) == 3225 && Free(f[1].recs) == 3200
  {
    var f := SpentReserve(big);
    SpaceThree(f[0].recs[0], f[0].recs[1], f[0].recs[2]);
    SpaceTwo(f[1].recs[0], f[1].recs[1]);
    hide Free; hide Used; hide Apart;
    assert SectorOk(f[0], CAP) && SectorOk(f[1], CAP);
    EmptyCountWitness(f);
  }

  lemma SpentReserveKeeps(big: Value)
    requires |big| == 1575
    ensures var f, p := SpentReserve(big), Exactly(CrowdedMap(big));
            Keeps(f, p) && forall a :: Kept(f, a) ==> a == Addr(0, 2) || a == Addr(1, 0)
    ensures Pend(SpentReserve(big), Addr(0, 2)) && At(SpentReserve(big), Addr(0, 2)).key == [2]
  {
    var f, p := SpentReserve(big), Exactly(CrowdedMap(big));
    assert Kept(f, Addr(0, 2)) && Kept(f, Addr(1, 0));
    assert forall a :: Kept(f, a) ==> a == Addr(0, 2) || a == Addr(1, 0);
  }

  /** Here the torn copy has used up the reserve, and no sector has room for the record. */
  lemma SpentReserveDoomed(big: Value)
    requires |big| == 1575
    ensures var f := SpentReserve(big); CutShort(f, 0, CAP) && Calm(f) && Recoverable(f, CAP, Exactly(CrowdedMap(big)))
    ensures [2] in StoredKeys(SpentReserve(big)) && [2] !in StoredKeys(SpentReserve(big)[0 := FORMATTED])
  {
    var f := SpentReserve(big);
    hide Keeps; hide EmptyCount; hide Free; hide FlashOk; hide Steady; hide Orderly; hide StoredKeys;
    SpentReserveOk(big);
    SpentReserveKeeps(big);
    assert Stored(f, [2]);
    assert CalmBy(f, true);
    assert forall a :: Kept(f[0 := FORMATTED], a) ==> Kept(f, a) && a.sec != 0;
  }

  function CrowdedMarked(big: Value): Flash { Crowded(big)[0 := Crowded(big)[0].(dirty := DIRTY_GC)] }

  /** One record has been moved. */
  function HalfMoved(big: Value, second: KvStatus): Flash {
    [Sector(true, STORE_USING, DIRTY_GC, [OLD_ONE, Big(DELETED, [1], big), Big(second, [2], big)]),
     Sector(true, STORE_USING, DIRTY_FALSE, [Big(WRITE, [1], big)])]
  }

  lemma OnlyFit(f: Flash, oldest: nat, size: nat)
    requires |f| == 2 && oldest < 2 && f[0].dirty == DIRTY_GC && f[1].ok && f[1].dirty == DIRTY_FALSE
    requires f[1].store == STORE_USING || f[1] == FORMATTED
    requires Free(f[1].recs) + size + REMAIN_THRESHOLD < CAP
    ensures Choose(f, oldest, size, true, CAP) == Some(1)
  {
    hide Choose; hide Free; hide EmptyCount;
    assert Fits(f[1], size, true, CAP);
    EmptyCountWitness(f);
    ChooseExact(f, oldest, size, true, CAP);
  }

  lemma StartFacts(big: Value)
    requires |big| == 1575
    ensures var f, p := Crowded(big), Exactly(CrowdedMap(big));
            && |f| == 2 && KV_HDR + REMAIN_THRESHOLD < CAP && Recoverable(f, CAP, p) && Quiet(f, true)
            && !p.tidy && p.reserve == 0 && f[0].ok && f[0].dirty in {DIRTY_TRUE, DIRTY_GC} && Steady(f)
            && Reads(f, CrowdedMap(big)) && FlashOk(f, CAP)
    ensures CrowdedMarked(big) == Crowded(big)[0 := Crowded(big)[0].(dirty := DIRTY_GC)]
    ensures In(CrowdedMarked(big), Addr(0, 1)) && Kept(CrowdedMarked(big), Addr(0, 1))
    ensures At(CrowdedMarked(big), Addr(0, 1)) == Big(WRITE, [1], big)
    ensures Big(WRITE, [1], big).status == WRITE
  {
    hide Free; hide Used; hide Apart; hide EmptyCount; hide Keeps;
    CrowdedOk(big);
    CrowdedReads(big);
    ReadsIsKeeps(Crowded(big), CrowdedMap(big));
  }

  lemma FirstMove(big: Value, g: Flash, oldest: nat, ok: bool)
    requires |big| == 1575 && oldest < 2 && In(CrowdedMarked(big), Addr(0, 1))
    requires MoveEffect(CrowdedMarked(big), g, Addr(0, 1), oldest, true, CAP, false, ok)
    ensures ok && g == HalfMoved(big, WRITE)
    ensures Live(g, Addr(0, 2)) && PreDeleted(g, Addr(0, 2)) == HalfMoved(big, PRE_DELETE)
  {
    var f, a := CrowdedMarked(big), Addr(0, 1);
    FreeOfNone();
    hide Free; hide Choose;
    var f1 := Withdrawn(f, a);
    assert f1[0].recs == [OLD_ONE, Big(PRE_DELETE, [1], big), Big(WRITE, [2], big)];
    assert f1[0].dirty == DIRTY_GC && f1[1] == FORMATTED && |f1| == 2;
    OnlyFit(f1, oldest, 1600);
    assert g[0].recs == HalfMoved(big, WRITE)[0].recs;
    assert g[1].recs == HalfMoved(big, WRITE)[1].recs;
    assert PreDeleted(g, Addr(0, 2))[0].recs == HalfMoved(big, PRE_DELETE)[0].recs;
  }

  lemma SecondPlace(big: Value, oldest: nat)
    requires |big| == 1575 && oldest < 2
    ensures var f, q := HalfMoved(big, PRE_DELETE), Rec(PRE_WRITE, true, [2], big[..11], 1600, false);
            && Choose(f, oldest, 1600, true, CAP) == Some(1)
            && |f| == 2 && f[1].store == STORE_USING && Fits(f[1], 1600, true, CAP)
            && EmptyCount(f) - EmptyBit(f[1]) >= 0 && Opened(f, 1) == f
            && (FlashOk(f, CAP) ==> Roomy(f, CAP, 1, 1600)) && KV_HDR <= 1600
            && Bare(f[1]).status == PRE_WRITE == q.status && RecOk(q, f[1].recs == []) && RecClears(Bare(f[1]), q)
            && q.hdr && !q.crcOk && q.len == 1600 && WithNew(f, 1, q) == SpentReserve(big) && Steady(f)
  {
    var f, q := HalfMoved(big, PRE_DELETE), Rec(PRE_WRITE, true, [2], big[..11], 1600, false);
    var r := Big(WRITE, [1], big);
    assert [] + [r] == [r];
    SpaceGrows([], r);
    FreeGrows([], r);
    FreeOfNone();
    hide Free; hide Choose; hide Used; hide Apart; hide FlashOk;
    OnlyFit(f, oldest, 1600);
    SpaceThree(f[0].recs[0], f[0].recs[1], f[0].recs[2]);
    assert WithNew(f, 1, q)[1] == SpentReserve(big)[1];
    assert WithNew(f, 1, q)[0] == SpentReserve(big)[0];
  }

  /** The steps of the collection up to the cut, one after the other as `do_gc` and `move_kv` take them. */
  method CollectUntilCut(big: Value) returns (db: KvDatabase)
    requires |big| == 1575
    ensures fresh(db) && db.Base() && db.hist != [] && db.hist[0] == Crowded(big) && db.flash == SpentReserve(big)
    ensures Reads(Crowded(big), CrowdedMap(big))
  {
    hide *;
    StartFacts(big);
    ghost var p := Exactly(CrowdedMap(big));
    db := new KvDatabase.PowerOn(CAP, 4, 4, Crowded(big), {});
    ghost var h0 := db.hist;
    db.ResetCache();
    db.RequestGc();
    db.MarkGc(0, p);
    db.BaseHas();
    ghost var h1 := db.hist;
    MarkedNow(db.flash, 0);
    var ok := db.MoveKv(Addr(0, 1), Big(WRITE, [1], big), p);
    FirstMove(big, db.flash, db.oldest, ok);
    RanOn(h0, h1, db.hist, CAP, p);
    h1 := db.hist;
    db.Withdraw(Addr(0, 2), p);
    RanOn(h0, h1, db.hist, CAP, p);
    SecondPlace(big, db.oldest);
    var t := db.AllocKv(1600);
    h1 := db.hist;
    var _ := db.UpdateSecStatus(1, 1600, p);
    RanOn(h0, h1, db.hist, CAP, p);
    db.BaseHas();
    h1 := db.hist;
    db.Begin(1, 1600, p);
    RanOn(h0, h1, db.hist, CAP, p);
    h1 := db.hist;
    ghost var f0 := HalfMoved(big, PRE_DELETE);
    db.Fill(1, f0, Bare(f0[1]), Rec(PRE_WRITE, true, [2], big[..11], 1600, false), p);
    RanOn(h0, h1, db.hist, CAP, p);
    RanPrefix(h0, db.hist, CAP, p);
  }

  /** A load from there loses the key for good. */
  method ResumedGcLoses(big: Value, fuel: nat) returns (db: KvDatabase, done: bool)
    requires |big| == 1575
    ensures fresh(db) && db.Base() && db.hist != [] && db.hist[0] == SpentReserve(big)
    ensures [2] in CrowdedMap(big) && !Stored(db.flash, [2]) && (done ==> [2] !in db.model)
  {
    hide *;
    SpentReserveOk(big);
    SpentReserveDoomed(big);
    BootFacts(SpentReserve(big), CAP);
    var f := SpentReserve(big);
    Enough(big);
    CalmIs(f);
    db := new KvDatabase.PowerOn(CAP, 4, 4, f, {});
    ghost var h0 := db.hist;
    ghost var res, starved, walk, start;
    done, res, starved, walk, start := db.Load(fuel, Exactly(CrowdedMap(big)));
    RanPrefix(h0, db.hist, CAP, Losing(Exactly(CrowdedMap(big)), Lost(f, db.flash)));
    Gone(db.flash, f, db.model);
  }

  lemma Enough(big: Value)
    requires |big| == 1575
    ensures |SpentReserve(big)| == 2 && KV_HDR + REMAIN_THRESHOLD < CAP && Exactly(CrowdedMap(big)).reserve == 0
    ensures [2] in CrowdedMap(big)
  {
  }

  lemma Gone(f: Flash, f0: Flash, m: map<Key, Value>)
    requires |f0| > 0 && StoredKeys(f) == StoredKeys(f0[0 := FORMATTED]) && [2] !in StoredKeys(f0[0 := FORMATTED])
    ensures !Stored(f, [2]) && [2] !in View(f)
  {
    if HasLive(f, [2]) {
      var a := LiveOne(f, [2]);
      assert Kept(f, a);
    }
  }

  // ---------------------------------------------------------------- a boot that does not end

  /** One big value, and room for a small one only. */
  function OneBig(status: KvStatus, big: Value): Flash {
    [Sector(true, STORE_USING, DIRTY_FALSE, [Big(status, [2], big)]), FORMATTED]
  }

  lemma OneBigOk(status: KvStatus, big: Value)
    requires |big| == 3855 && status in {WRITE, PRE_DELETE}
    ensures var f := OneBig(status, big);
            && FlashOk(f, CAP) && Orderly(f) && NothingDirty(f) && EmptyCount(f) == 1 && Free(f[0].recs) == 3880
            && Steady(f) && In(f, Addr(0, 0)) && (forall a :: In(f, a) ==> a == Addr(0, 0)) && IsOldest(f, 0)
  {
    var f, r := OneBig(status, big), Big(status, [2], big);
    assert [] + [r] == [r];
    SpaceGrows([], r);
    FreeGrows([], r);
    FreeOfNone();
    hide Free; hide Used; hide Apart;
    assert SectorOk(f[0], CAP) && SectorOk(f[1], CAP);
    EmptyCountUpdate([f[0], f[0]], 1, FORMATTED);
    EmptyCountWitness([f[0], f[0]]);
    assert f == [f[0], f[0]][1 := FORMATTED];
  }

  lemma OneBigReads(big: Value)
    requires |big| == 3855
    ensures var f, g, m := OneBig(WRITE, big), OneBig(PRE_DELETE, big), map[[2] := big];
            && Reads(f, m) && NoPending(f) && NoTorn(f) && Live(f, Addr(0, 0)) && g == WithStatus(f, Addr(0, 0), PRE_DELETE)
            && Keeps(g, Changing(m, m[[2] := []]))
  {
    var f, g, m := OneBig(WRITE, big), OneBig(PRE_DELETE, big), map[[2] := big];
    hide FlashOk; hide EmptyCount; hide Free;
    OneBigOk(WRITE, big);
    assert Live(f, Addr(0, 0));
    ReadsIsKeeps(f, m);
    PromiseOpens(f, m, m[[2] := []]);
    KeepsPreDelete(f, Addr(0, 0), Changing(m, m[[2] := []]));
    assert g[0] == WithStatus(f, Addr(0, 0), PRE_DELETE)[0];
  }

  /** Replacing it by a small value, cut right after the PRE_DELETE of the big one: there is no room to
      bring the big one back and no sector is dirty, so the load retries for ever. */
  lemma LoadCanHang(big: Value)
    requires |big| == 3855
    ensures var f, g, m := OneBig(WRITE, big), OneBig(PRE_DELETE, big), map[[2] := big];
            && FlashOk(f, CAP) && Settled(f) && Steady(f) && Reads(f, m) && NoPending(f) && EmptyCount(f) == 1
            && Choose(f, 0, KvLen([2], []), false, CAP).Some?
            && g == WithStatus(f, Addr(0, 0), PRE_DELETE)
            && Recoverable(g, CAP, Changing(m, m[[2] := []])) && Stuck(AtBoot(g), 0, CAP)
  {
    hide Choose;
    hide Reads;
    hide Keeps;
    hide NoPending;
    hide NoTorn;
    hide Stuck;
    hide EmptyCount;
    hide Free;
    hide FlashOk;
    hide Steady;
    var f, g := OneBig(WRITE, big), OneBig(PRE_DELETE, big);
    OneBigOk(WRITE, big);
    OneBigOk(PRE_DELETE, big);
    OneBigReads(big);
    FreeOfNone();
    EmptyCountWitness(f);
    ChooseExact(f, 0, 3880, false, CAP);
    ChooseExact(f, 0, KvLen([2], []), false, CAP);
    assert Fits(f[0], KvLen([2], []), false, CAP);
    CutBeforeDirtyMarkSticks(f, Addr(0, 0), 0, CAP);
    BootFacts(g, CAP);
  }

  /** However often the walk is repeated. */
  method LoadHangs(big: Value, fuel: nat) returns (db: KvDatabase, done: bool)
    requires |big| == 3855
    ensures fresh(db) && db.hist != [] && db.hist[0] == OneBig(PRE_DELETE, big) && !done
  {
    hide *;
    LoadCanHang(big);
    OneBigOk(PRE_DELETE, big);
    HangFacts(big);
    ghost var p := Changing(map[[2] := big], map[[2] := big][[2] := []]).(reserve := 0);
    db := new KvDatabase.PowerOn(CAP, 4, 4, OneBig(PRE_DELETE, big), {});
    ghost var h0 := db.hist;
    ghost var res, starved, walk, start;
    done, res, starved, walk, start := db.Load(fuel, p);
    RanPrefix(h0, db.hist, CAP, Losing(p, Lost(OneBig(PRE_DELETE, big), db.flash)));
  }

  lemma HangFacts(big: Value)
    requires |big| == 3855
    ensures var f, m := OneBig(PRE_DELETE, big), map[[2] := big];
            && |f| == 2 && KV_HDR + REMAIN_THRESHOLD < CAP && CalmBy(f, Steady(f)) && OnePending(f)
            && Recoverable(f, CAP, Changing(m, m[[2] := []]).(reserve := 0))
            && Changing(m, m[[2] := []]).(reserve := 0).reserve == 0
  {
    hide Free; hide FlashOk; hide Stuck; hide EmptyCount; hide Steady; hide Choose; hide Keeps; hide Stuck;
    var m := map[[2] := big];
    OneBigOk(PRE_DELETE, big);
    LoadCanHang(big);
    OtherReserve(OneBig(PRE_DELETE, big), Changing(m, m[[2] := []]), Changing(m, m[[2] := []]).(reserve := 0));
    assert CalmBy(OneBig(PRE_DELETE, big), true);
  }

  // ---------------------------------------------------------------- the oldest sector of a cold start

  /** A big record just withdrawn, and one cut short in the sector that is really the oldest. */
  function Misled(big: Value): Flash {
    [Sector(true, STORE_USING, DIRTY_FALSE, [Big(PRE_DELETE, [2], big)]), FORMATTED,
     Sector(true, STORE_USING, DIRTY_FALSE, [Rec(PRE_WRITE, true, [], [], 300, false)])]
  }

  lemma MisledOk(big: Value)
    requires |big| == 3855
    ensures var f := Misled(big);
            && FlashOk(f, CAP) && Orderly(f) && NothingDirty(f) && EmptyCount(f) == 1 && Steady(f) && IsOldest(f, 2)
            && Free(f[0].recs) == 3880 && Free(f[2].recs) == 300
  {
    var f := Misled(big);
    var r, q := f[0].recs[0], f[2].recs[0];
    hide Free; hide Used; hide Apart; hide EmptyCount; hide Prog;
    SpaceOne(r);
    SpaceOne(q);
    FreeOfNone();
    NoneApart();
    assert SectorOk(f[0], CAP) && SectorOk(f[1], CAP) && SectorOk(f[2], CAP);
    OneEmpty(f, 1);
  }

  lemma MisledKeeps(big: Value)
    ensures var f, p := Misled(big), Exactly(map[[2] := big]);
            && Keeps(f, p) && OnePending(f) && Pend(f, Addr(0, 0)) && Torn(f, Addr(2, 0))
            && (forall a :: Kept(f, a) ==> a == Addr(0, 0)) && (forall a :: Torn(f, a) ==> a == Addr(2, 0))
            && FirstPending(f, Addr(0, 0), 0) && At(f, Addr(0, 0)).len == 25 + |big|
  {
    var f := Misled(big);
    assert Kept(f, Addr(0, 0)) && At(f, Addr(0, 0)).key == [2];
    assert forall a :: Kept(f, a) ==> a == Addr(0, 0);
  }

  lemma OneEmpty(f: Flash, s: nat)
    requires s < |f| && f[s] == FORMATTED && forall u: nat :: u < |f| && u != s ==> f[u].store == STORE_USING
    ensures EmptyCount(f) == 1
  {
    hide EmptyCount;
    var g := f[s := ERASED];
    EmptyCountUpdate(f, s, ERASED);
    EmptyCountWitness(g);
  }

  /** From the first sector on the walk gets stuck, from the oldest one it does not. */
  lemma MisledStuck(big: Value)
    requires |big| == 3855
    ensures Stuck(Misled(big), 0, CAP) && !Stuck(Misled(big), 2, CAP)
  {
    hide Choose; hide Free; hide EmptyCount; hide FlashOk; hide Steady; hide Keeps;
    var f := Misled(big);
    MisledOk(big);
    MisledKeeps(big);
    ChooseExact(f, 0, 3880, false, CAP);
    assert !Before(Addr(2, 0), Addr(0, 0), 0, 3);
    assert Before(Addr(2, 0), Addr(0, 0), 2, 3);
  }

  lemma MisledFacts(big: Value)
    requires |big| == 3855
    ensures var f, p := Misled(big), Exactly(map[[2] := big]);
            && |f| == 3 && KV_HDR + REMAIN_THRESHOLD < CAP && CalmBy(f, Steady(f)) && Recoverable(f, CAP, p) && p.reserve == 0
            && FlashOk(f, CAP) && NothingDirty(f) && OnePending(f) && AtBoot(f) == f && IsOldest(f, 2)
            && forall s: nat :: s < |f| ==> f[s].ok
  {
    hide Free; hide EmptyCount; hide FlashOk; hide Steady; hide Keeps; hide AtBoot;
    MisledOk(big);
    MisledKeeps(big);
    BootFacts(Misled(big), CAP);
  }

  /** On a cold start the load never ends; with the table of sectors cleared before the scan instead of after it, the
      scan would find the oldest sector, and the load would end. */
  method ColdStartHangs(big: Value, fuel: nat) returns (cold: bool, cleared: bool)
    requires |big| == 3855
    ensures !cold && cleared
  {
    hide *;
    MisledFacts(big);
    MisledStuck(big);
    ghost var p := Exactly(map[[2] := big]);
    ghost var res, starved, walk, start;
    var db := new KvDatabase.PowerOn(CAP, 4, 4, Misled(big), {});
    cold, res, starved, walk, start := db.Load(fuel, p);
    db := new KvDatabase.PowerOn(CAP, 4, 4, Misled(big), {});
    db.ResetCache();
    db.CacheBaseHas();
    cleared, res, starved, walk, start := db.Load(fuel, p);
    OldestUnique(Misled(big), start, 2);
  }

  // ---------------------------------------------------------------- another sector goes first

  /** Two dirty sectors and an EMPTY one. */
  function TwoDirty(x: Value, y: Value, z: Value): Flash {
    [Sector(true, STORE_USING, DIRTY_TRUE, [OLD_ONE, Big(WRITE, [1], x)]),
     Sector(true, STORE_USING, DIRTY_TRUE, [OLD_ONE, Big(WRITE, [2], y), Big(WRITE, [3], z)]),
     FORMATTED]
  }

  function TwoDirtyMap(x: Value, y: Value, z: Value): map<Key, Value> { map[[1] := x, [2] := y, [3] := z] }

  function SecondMarked(x: Value, y: Value, z: Value): Flash {
    TwoDirty(x, y, z)[1 := TwoDirty(x, y, z)[1].(dirty := DIRTY_GC)]
  }

  /** The collection of the second sector, cut after its first move. */
  function FirstMoved(x: Value, y: Value, z: Value): Flash {
    [Sector(true, STORE_USING, DIRTY_TRUE, [OLD_ONE, Big(WRITE, [1], x)]),
     Sector(true, STORE_USING, DIRTY_GC, [OLD_ONE, Big(DELETED, [2], y), Big(WRITE, [3], z)]),
     Sector(true, STORE_USING, DIRTY_FALSE, [Big(WRITE, [2], y)])]
  }

  predicate Sized(x: Value, y: Value, z: Value) { |x| == 2975 && |y| == 1975 && |z| == 975 }

  lemma TwoDirtyOk(x: Value, y: Value, z: Value)
    requires Sized(x, y, z)
    ensures var f, p := TwoDirty(x, y, z), Exactly(TwoDirtyMap(x, y, z));
            && FlashOk(f, CAP) && Steady(f) && Settled(f) && EmptyCount(f) == 1
            && FlashOk(SecondMarked(x, y, z), CAP)
  {
    var f := TwoDirty(x, y, z);
    SpaceTwo(f[0].recs[0], f[0].recs[1]);
    SpaceThree(f[1].recs[0], f[1].recs[1], f[1].recs[2]);
    hide Free; hide Used; hide Apart; hide EmptyCount; hide Prog;
    FreeOfNone();
    NoneApart();
    assert SectorOk(f[0], CAP) && SectorOk(f[1], CAP) && SectorOk(f[2], CAP) && SectorOk(SecondMarked(x, y, z)[1], CAP);
    OneEmpty(f, 2);
  }

  lemma TwoDirtyLive(x: Value, y: Value, z: Value)
    ensures var f := TwoDirty(x, y, z);
            && (forall a :: Live(f, a) <==> a == Addr(0, 1) || a == Addr(1, 1) || a == Addr(1, 2)) && NoPending(f)
            && In(f, Addr(0, 1)) && At(f, Addr(0, 1)) == Big(WRITE, [1], x)
            && In(f, Addr(1, 1)) && At(f, Addr(1, 1)) == Big(WRITE, [2], y)
            && In(f, Addr(1, 2)) && At(f, Addr(1, 2)) == Big(WRITE, [3], z)
  {
  }

  lemma TwoDirtyReads(x: Value, y: Value, z: Value)
    ensures var f := TwoDirty(x, y, z); Reads(f, TwoDirtyMap(x, y, z)) && NoPending(f)
  {
    var f, m := TwoDirty(x, y, z), TwoDirtyMap(x, y, z);
    TwoDirtyLive(x, y, z);
    hide TwoDirty;
    assert HasLive(f, [1]) && HasLive(f, [2]) && HasLive(f, [3]);
    assert forall k: Key :: k in m ==> k == [1] || k == [2] || k == [3];
  }

  lemma TwoDirtyStart(x: Value, y: Value, z: Value)
    requires Sized(x, y, z)
    ensures var f, p, g := TwoDirty(x, y, z), Exactly(TwoDirtyMap(x, y, z)), SecondMarked(x, y, z);
            && |f| == 3 && KV_HDR + REMAIN_THRESHOLD < CAP && Recoverable(f, CAP, p) && Quiet(f, true) && Steady(f)
            && FlashOk(f, CAP) && FlashOk(g, CAP) && !p.tidy && p.reserve == 0
            && f[1].ok && f[1].dirty in {DIRTY_TRUE, DIRTY_GC} && Reads(f, TwoDirtyMap(x, y, z))
            && g == f[1 := f[1].(dirty := DIRTY_GC)] && |g| == 3 && g[1].dirty == DIRTY_GC
            && In(g, Addr(1, 1)) && Kept(g, Addr(1, 1)) && At(g, Addr(1, 1)) == Big(WRITE, [2], y) && Big(WRITE, [2], y).status == WRITE
  {
    hide Free; hide Used; hide Apart; hide EmptyCount; hide Keeps; hide FlashOk; hide Steady;
    TwoDirtyOk(x, y, z);
    TwoDirtyReads(x, y, z);
    ReadsIsKeeps(TwoDirty(x, y, z), TwoDirtyMap(x, y, z));
  }

  lemma SecondMove(x: Value, y: Value, z: Value, g: Flash, oldest: nat, ok: bool)
    requires Sized(x, y, z) && oldest < 3 && In(SecondMarked(x, y, z), Addr(1, 1)) && FlashOk(SecondMarked(x, y, z), CAP)
    requires MoveEffect(SecondMarked(x, y, z), g, Addr(1, 1), oldest, true, CAP, false, ok)
    ensures ok && g == FirstMoved(x, y, z)
  {
    var f, a := SecondMarked(x, y, z), Addr(1, 1);
    FreeOfNone();
    hide Free; hide Choose; hide FlashOk; hide EmptyCount;
    assert Kept(f, a);
    var f1 := Withdrawn(f, a);
    WithdrawnOk(f, CAP, a);
    assert f1[1].recs == [OLD_ONE, Big(PRE_DELETE, [2], y), Big(WRITE, [3], z)];
    assert f1[1].dirty == DIRTY_GC && f1[2] == FORMATTED && |f1| == 3 && f1[0] == f[0];
    assert Fits(f1[2], 2000, true, CAP) && OnlyClean(f1, 1, 2);
    var u := PlaceFound(f1, 1, 2, 2000, oldest, CAP);
    assert g[0] == FirstMoved(x, y, z)[0];
    assert g[1].recs == FirstMoved(x, y, z)[1].recs;
    assert g[2].recs == FirstMoved(x, y, z)[2].recs;
  }

  /** A collection of the second sector, which was the oldest, cut after its first move. */
  method CutAfterMove(x: Value, y: Value, z: Value) returns (db: KvDatabase)
    requires Sized(x, y, z)
    ensures fresh(db) && db.Base() && db.hist != [] && db.hist[0] == TwoDirty(x, y, z) && db.flash == FirstMoved(x, y, z)
    ensures Reads(TwoDirty(x, y, z), TwoDirtyMap(x, y, z))
  {
    hide *;
    TwoDirtyStart(x, y, z);
    ghost var p := Exactly(TwoDirtyMap(x, y, z));
    db := new KvDatabase.PowerOn(CAP, 4, 4, TwoDirty(x, y, z), {});
    ghost var h0 := db.hist;
    db.StartAt(1);
    db.ResetCache();
    db.RequestGc();
    db.MarkGc(1, p);
    ghost var h1 := db.hist;
    MarkedNow(db.flash, 1);
    var ok := db.MoveKv(Addr(1, 1), Big(WRITE, [2], y), p);
    db.BaseHas();
    SecondMove(x, y, z, db.flash, db.oldest, ok);
    RanOn(h0, h1, db.hist, CAP, p);
    RanPrefix(h0, db.hist, CAP, p);
  }

  lemma FirstMovedOk(x: Value, y: Value, z: Value)
    requires Sized(x, y, z)
    ensures var f := FirstMoved(x, y, z);
            && FlashOk(f, CAP) && Orderly(f) && Steady(f) && EmptyCount(f) == 0 && !NoGc(f)
            && Free(f[2].recs) == 2000 && KeptBytes(f[0].recs, 0) == 3000 && KeptBytes(f[1].recs, 0) == 1000
  {
    var f := FirstMoved(x, y, z);
    hide Free; hide Used; hide Apart; hide EmptyCount; hide Prog;
    SpaceTwo(f[0].recs[0], f[0].recs[1]);
    SpaceThree(f[1].recs[0], f[1].recs[1], f[1].recs[2]);
    SpaceOne(f[2].recs[0]);
    assert SectorOk(f[0], CAP) && SectorOk(f[1], CAP) && SectorOk(f[2], CAP);
    EmptyCountWitness(f);
    assert f[1].dirty == DIRTY_GC;
    var p, q := f[0].recs, f[1].recs;
    assert KeptBytes(p, 2) == 0 && KeptBytes(p, 1) == 3000;
    assert KeptBytes(q, 3) == 0 && KeptBytes(q, 2) == 1000 && KeptBytes(q, 1) == 1000;
  }

  lemma FirstMovedKeeps(x: Value, y: Value, z: Value)
    ensures var f := FirstMoved(x, y, z);
            && Keeps(f, Exactly(TwoDirtyMap(x, y, z))) && Alone(f, 0, 0)
            && forall a :: Kept(f, a) ==> a == Addr(0, 1) || a == Addr(1, 2) || a == Addr(2, 0)
  {
    var f := FirstMoved(x, y, z);
    assert Kept(f, Addr(0, 1)) && Kept(f, Addr(1, 2)) && Kept(f, Addr(2, 0));
    assert forall a :: Kept(f, a) ==> a == Addr(0, 1) || a == Addr(1, 2) || a == Addr(2, 0);
  }

  /** The sector under collection would find room for the rest, but the boot takes the first one, which does not. */
  lemma FirstMovedCosts(x: Value, y: Value, z: Value)
    requires Sized(x, y, z)
    ensures var f, p := FirstMoved(x, y, z), Exactly(TwoDirtyMap(x, y, z));
            && |f| == 3 && KV_HDR + REMAIN_THRESHOLD < CAP && Recoverable(f, CAP, p) && p.reserve == 0 && Calm(f)
            && AtBoot(f) == f && !NoGc(f)
            && SafeAtBoot(f, 1, CAP)
            && forall lost :: Costs(f, 0, CAP, lost) ==> lost != {}
  {
    hide Free; hide EmptyCount; hide FlashOk; hide Steady; hide Keeps; hide AtBoot; hide KeptBytes; hide Alone;
    var f := FirstMoved(x, y, z);
    FirstMovedOk(x, y, z);
    FirstMovedKeeps(x, y, z);
    BootFacts(f, CAP);
    assert CalmBy(f, true);
    assert FirstDirty(f, 0, 0) && Lonely(f, 0, 2) && !Spacious(f, 0, 0, 2, CAP);
    assert FirstDirty(f, 1, 1) && Spacious(f, 1, 0, 2, CAP);
    assert HasSpace(f, 1, 0, CAP);
    SafeFirst(f, 1, 1, CAP);
  }

  /** No record was cut short, and still a key is lost for good. */
  method OtherSectorFirst(x: Value, y: Value, z: Value, fuel: nat) returns (db: KvDatabase, done: bool)
    requires Sized(x, y, z)
    ensures fresh(db) && db.Base() && SafeAtBoot(FirstMoved(x, y, z), 1, CAP)
    ensures exists k :: k in TwoDirtyMap(x, y, z) && !Stored(db.flash, k)
  {
    hide *;
    FirstMovedCosts(x, y, z);
    ghost var p := Exactly(TwoDirtyMap(x, y, z));
    var res;
    ghost var walk;
    db, done, res, walk := RebootUntilClean(FirstMoved(x, y, z), CAP, 4, 4, fuel, {}, p);
    LostFor(x, y, z, db.flash);
  }

  lemma LostFor(x: Value, y: Value, z: Value, g: Flash)
    requires Lost(FirstMoved(x, y, z), g) != {}
    ensures exists k :: k in TwoDirtyMap(x, y, z) && !Stored(g, k)
  {
    var f := FirstMoved(x, y, z);
    var k :| k in Lost(f, g);
    assert Stored(f, k);
    FirstMovedKeeps(x, y, z);
    var a :| Kept(f, a) && At(f, a).key == k;
    assert Says(Exactly(TwoDirtyMap(x, y, z)), At(f, a));
  }
}
