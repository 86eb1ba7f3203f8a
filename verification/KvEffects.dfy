/**
 What the building blocks of the key-value operations do to the flash content as a whole, and what
 they leave alone.
 */
module KvEffects {
  import opened Wrappers
  import opened FdbDef
  import opened KvFlash
  import opened KvDevice
  import opened KvAlloc

  function Marked(f: Flash, s: nat): Flash
    requires s < |f|
  {
    if f[s].dirty == DIRTY_FALSE then f[s := f[s].(dirty := DIRTY_TRUE)] else f
  }

  /** `del_kv` without and with completion. */
  function PreDeleted(f: Flash, a: Addr): Flash
    requires In(f, a)
  {
    Marked(WithStatus(f, a, PRE_DELETE), a.sec)
  }

  function Dropped(f: Flash, a: Addr): Flash
    requires In(f, a)
  {
    Marked(WithStatus(f, a, DELETED), a.sec)
  }

  function Opened(f: Flash, t: nat): Flash
    requires t < |f|
  {
    f[t := f[t].(store := STORE_USING)]
  }

  function Placed(f: Flash, t: nat, r: Rec): Flash
    requires t < |f|
  {
    WithNew(Opened(f, t), t, r)
  }

  /** No walk has anything left to mark: the first slot of a sector in use holds a record with a
      header, or one already given up. */
  predicate SettledSector(x: Sector) {
    x.store == STORE_USING ==> x.recs != [] && (x.recs[0].hdr || x.recs[0].status == ERR_HDR)
  }

  predicate Settled(f: Flash) { forall s: nat :: s < |f| ==> SettledSector(f[s]) }

  /** Between the steps of the database: walks find nothing to mark, and the free space stays known. */
  ghost predicate Quiet(f: Flash, steady: bool) { Settled(f) && CalmBy(f, steady) }

  /** A walk counts a header for a first slot without one, and passes by a bare status byte elsewhere. */
  function BareLen(x: Sector): nat { if x.recs == [] then KV_HDR else 0 }

  /** A record whose status byte alone has been programmed. */
  function Bare(x: Sector): Rec { Rec(PRE_WRITE, false, [], [], BareLen(x), false) }

  /** Everything a run of programs has left on the flash, one content per program or erase. */
  ghost predicate Ran(h: seq<Flash>, h': seq<Flash>, cap: nat, p: Promise) {
    h <= h' && forall j :: |h| <= j < |h'| ==> Recoverable(h'[j], cap, p)
  }

  lemma RanOn(h: seq<Flash>, h': seq<Flash>, h'': seq<Flash>, cap: nat, p: Promise)
    requires Ran(h, h', cap, p) && Ran(h', h'', cap, p)
    ensures Ran(h, h'', cap, p)
  {
  }

  lemma RanNot(h: seq<Flash>, cap: nat, p: Promise)
    ensures Ran(h, h, cap, p)
  {
  }

  lemma KeptFacts(f: Flash, cap: nat, a: Addr, p: Promise)
    requires Recoverable(f, cap, p) && Kept(f, a)
    ensures SectorOk(f[a.sec], cap) && RecOk(At(f, a), a.idx == 0) && At(f, a).crcOk && Says(p, At(f, a))
  {
    assert SectorOk(f[a.sec], cap);
  }

  lemma SectorFacts(f: Flash, cap: nat, s: nat)
    requires FlashOk(f, cap) && s < |f|
    ensures SectorOk(f[s], cap)
  {
  }

  lemma LongNames(f: Flash, cap: nat, a: Addr)
    requires FlashOk(f, cap) && Live(f, a)
    ensures |At(f, a).key| < NAME_MAX
  {
    assert SectorOk(f[a.sec], cap);
  }

  lemma KeptNeeds(f: Flash, cap: nat, a: Addr)
    requires FlashOk(f, cap)
    ensures Kept(f, a) ==> At(f, a).crcOk
  {
    if In(f, a) {
      assert SectorOk(f[a.sec], cap);
    }
  }

  lemma EmptySectors(f: Flash, cap: nat, s: nat)
    requires FlashOk(f, cap) && s < |f| && f[s].store == STORE_EMPTY
    ensures f[s] == FORMATTED
  {
    assert SectorOk(f[s], cap);
  }

  lemma RanWithoutReserve(h: seq<Flash>, h': seq<Flash>, cap: nat, p: Promise)
    requires Ran(h, h', cap, p)
    ensures Ran(h, h', cap, p.(reserve := 0))
  {
    forall j | |h| <= j < |h'| ensures Recoverable(h'[j], cap, p.(reserve := 0)) {
      OtherReserve(h'[j], p, p.(reserve := 0));
    }
  }

  lemma RanUntidy(h: seq<Flash>, h': seq<Flash>, cap: nat, p: Promise)
    requires Ran(h, h', cap, p)
    ensures Ran(h, h', cap, p.(tidy := false))
  {
    forall j | |h| <= j < |h'| ensures Recoverable(h'[j], cap, p.(tidy := false)) {
      OtherTidy(h'[j], p, p.(tidy := false));
    }
  }

  // ---------------------------------------------------------------- frames

  lemma StatusFrame(f: Flash, a: Addr, st: KvStatus, g: Flash)
    requires In(f, a) && g == Marked(WithStatus(f, a, st), a.sec)
    ensures |g| == |f|
    ensures forall b :: In(g, b) <==> In(f, b)
    ensures forall b :: In(f, b) && b != a ==> At(g, b) == At(f, b)
    ensures At(g, a) == At(f, a).(status := st)
  {
  }

  lemma StatusSpace(f: Flash, a: Addr, st: KvStatus, g: Flash)
    requires In(f, a) && g == Marked(WithStatus(f, a, st), a.sec)
    ensures |g| == |f|
    ensures forall s: nat :: s < |f| && s != a.sec ==> g[s] == f[s]
    ensures Used(g[a.sec].recs) == Used(f[a.sec].recs) && Free(g[a.sec].recs) == Free(f[a.sec].recs)
    ensures |g[a.sec].recs| == |f[a.sec].recs|
    ensures g[a.sec].store == f[a.sec].store && g[a.sec].ok == f[a.sec].ok
    ensures g[a.sec].dirty == if f[a.sec].dirty == DIRTY_FALSE then DIRTY_TRUE else f[a.sec].dirty
    ensures EmptyCount(g) == EmptyCount(f)
    ensures Settled(f) && st != PRE_WRITE && (At(f, a).status == ERR_HDR ==> st == ERR_HDR) ==> Settled(g)
  {
    hide Used; hide Free;
    SpaceOfStatus(f[a.sec].recs, a.idx, st);
    EmptyCountUpdate(f, a.sec, g[a.sec]);
    assert g == f[a.sec := g[a.sec]];
    if Settled(f) {
      assert SettledSector(f[a.sec]);
    }
  }

  lemma PlacedRecs(f: Flash, t: nat, r: Rec, g: Flash)
    requires t < |f| && g == Placed(f, t, r)
    ensures forall b :: In(g, b) <==> In(f, b) || b == Addr(t, |f[t].recs|)
    ensures forall b :: In(f, b) ==> At(g, b) == At(f, b)
    ensures At(g, Addr(t, |f[t].recs|)) == r
  {
    Extended(Opened(f, t), t, r);
  }

  lemma PlacedFrame(f: Flash, t: nat, r: Rec, g: Flash)
    requires t < |f| && f[t].ok && g == Placed(f, t, r) && r.hdr
    requires f[t].store in {STORE_EMPTY, STORE_USING}
    ensures |g| == |f|
    ensures forall b :: In(g, b) <==> In(f, b) || b == Addr(t, |f[t].recs|)
    ensures forall b :: In(f, b) ==> At(g, b) == At(f, b)
    ensures At(g, Addr(t, |f[t].recs|)) == r
    ensures forall s: nat :: s < |f| && s != t ==> g[s] == f[s]
    ensures g[t].ok && g[t].store == STORE_USING && g[t].dirty == f[t].dirty && g[t].recs == f[t].recs + [r]
    ensures Used(g[t].recs) == Used(f[t].recs) + r.len
    ensures RecOk(r, f[t].recs == []) ==> Free(g[t].recs) <= Free(f[t].recs) + r.len
    ensures EmptyCount(g) == EmptyCount(f) - EmptyBit(f[t])
    ensures Settled(f) && (f[t].store == STORE_EMPTY ==> f[t].recs == []) ==> Settled(g)
  {
    hide In;
    hide Used;
    hide Free;
    hide EmptyCount;
    PlacedRecs(f, t, r, g);
    UsedGrows(f[t].recs, r);
    if RecOk(r, f[t].recs == []) {
      FreeGrows(f[t].recs, r);
    }
    EmptyCountUpdate(f, t, g[t]);
    assert g == f[t := g[t]];
    if Settled(f) {
      assert SettledSector(f[t]);
    }
  }

  // ---------------------------------------------------------------- the free space stays known

  lemma SteadySector(f: Flash, s: nat, x: Sector)
    requires s < |f| && Steady(f) && Used(x.recs) == Free(x.recs)
    ensures Steady(f[s := x])
  {
  }

  /** A later status of a record that counts, or one that does not make it count. */
  lemma StatusCalm(f: Flash, a: Addr, st: KvStatus, g: Flash, steady: bool)
    requires In(f, a) && g in {WithStatus(f, a, st), Marked(WithStatus(f, a, st), a.sec)}
    requires Kept(f, a) || st !in {WRITE, PRE_DELETE}
    requires CalmBy(f, steady)
    ensures CalmBy(g, steady)
  {
    hide Free; hide Used; hide EndsSolid; hide Marked;
    var r := At(f, a).(status := st);
    MarkedIs(f, a, r, g);
    SpaceOfStatus(f[a.sec].recs, a.idx, st);
    if steady {
      SteadySector(f, a.sec, g[a.sec]);
    } else {
      StatusSolid(f, a, st, g);
    }
  }

  lemma MarkedIs(f: Flash, a: Addr, r: Rec, g: Flash)
    requires In(f, a) && g in {WithRec(f, a, r), Marked(WithRec(f, a, r), a.sec)}
    ensures |g| == |f| && g[a.sec].recs == f[a.sec].recs[a.idx := r] && g == f[a.sec := g[a.sec]]
  {
  }

  lemma StatusSolid(f: Flash, a: Addr, st: KvStatus, g: Flash)
    requires In(f, a) && |g| == |f| && g == f[a.sec := g[a.sec]]
    requires g[a.sec].recs == f[a.sec].recs[a.idx := At(f, a).(status := st)]
    requires Solid(f) && (Kept(f, a) || st !in {WRITE, PRE_DELETE})
    ensures Solid(g)
  {
    forall b | Kept(g, b) ensures EndsSolid(At(g, b)) {
      assert b != a ==> At(g, b) == At(f, b);
      assert Kept(f, b);
      assert EndsSolid(At(f, b));
      assert b == a ==> At(g, b) == At(f, a).(status := st);
    }
  }

  lemma PlacedCalm(f: Flash, t: nat, r: Rec, steady: bool)
    requires t < |f| && CalmBy(f, steady) && (steady || EndsSolid(r)) && r.hdr && RecOk(r, f[t].recs == [])
    ensures CalmBy(Placed(f, t, r), steady)
  {
    var g := Placed(f, t, r);
    assert g == f[t := g[t]] && g[t].recs == f[t].recs + [r];
    PlacedRecs(f, t, r, g);
    hide Free; hide Used; hide EndsSolid; hide Placed;
    FreeGrows(f[t].recs, r);
    if steady {
      SteadySector(f, t, g[t]);
    } else {
      forall b | Kept(g, b) ensures EndsSolid(At(g, b)) {
        assert b != Addr(t, |f[t].recs|) ==> Kept(f, b);
      }
    }
  }

  lemma FormattedCalm(f: Flash, s: nat, x: Sector, steady: bool)
    requires s < |f| && x.recs == [] && CalmBy(f, steady)
    ensures CalmBy(f[s := x], steady)
  {
    var g := f[s := x];
    assert Used(g[s].recs) == Free(g[s].recs);
    hide Free; hide Used; hide EndsSolid;
    assert forall b :: Kept(g, b) ==> Kept(f, b) && At(g, b) == At(f, b);
  }

  lemma HeaderCalm(f: Flash, g: Flash, steady: bool)
    requires SameRecs(f, g) && CalmBy(f, steady)
    ensures CalmBy(g, steady)
  {
    hide Free; hide Used; hide EndsSolid;
    assert forall b :: Kept(g, b) ==> Kept(f, b) && At(g, b) == At(f, b);
  }

  lemma BlankCalm(f: Flash, s: nat, steady: bool)
    requires s < |f| && f[s].recs == [] && CalmBy(f, steady)
    ensures CalmBy(WithNew(f, s, BLANK), steady)
  {
    var g := WithNew(f, s, BLANK);
    Extended(f, s, BLANK);
    BlankIs(f, s);
    hide EndsSolid; hide WithNew; hide Used; hide Free;
    if steady {
      SteadySector(f, s, g[s]);
    }
  }

  lemma BlankIs(f: Flash, s: nat)
    requires s < |f| && f[s].recs == []
    ensures var g := WithNew(f, s, BLANK); |g| == |f| && Used(g[s].recs) == Free(g[s].recs) && g == f[s := g[s]]
  {
    FreeGrows([], BLANK);
  }

  lemma QuietStatus(f: Flash, a: Addr, st: KvStatus, steady: bool)
    requires In(f, a) && Quiet(f, steady) && st != PRE_WRITE && (At(f, a).status == ERR_HDR ==> st == ERR_HDR)
    requires Kept(f, a) || st !in {WRITE, PRE_DELETE}
    ensures Quiet(Marked(WithStatus(f, a, st), a.sec), steady) && Quiet(WithStatus(f, a, st), steady)
  {
    var g := Marked(WithStatus(f, a, st), a.sec);
    StatusCalm(f, a, st, g, steady);
    StatusCalm(f, a, st, WithStatus(f, a, st), steady);
    hide CalmBy; hide Used; hide Free; hide EmptyCount;
    StatusSpace(f, a, st, g);
    assert forall s: nat :: s < |f| ==> WithStatus(f, a, st)[s] == g[s].(dirty := f[s].dirty);
    assert forall s: nat :: s < |f| ==> SettledSector(g[s]);
  }

  lemma QuietPlaced(f: Flash, cap: nat, t: nat, r: Rec, steady: bool)
    requires FlashOk(f, cap) && t < |f| && f[t].ok && Quiet(f, steady) && (steady || EndsSolid(r))
    requires r.hdr && RecOk(r, f[t].recs == [])
    ensures Quiet(Placed(f, t, r), steady)
  {
    PlacedCalm(f, t, r, steady);
    hide CalmBy; hide Used; hide Free; hide EmptyCount;
    SectorFacts(f, cap, t);
    PlacedFrame(f, t, r, Placed(f, t, r));
  }

  lemma QuietFormatted(f: Flash, s: nat, steady: bool)
    requires s < |f| && Quiet(f, steady)
    ensures Quiet(f[s := FORMATTED], steady)
  {
    FormattedCalm(f, s, FORMATTED, steady);
    hide CalmBy;
  }

  lemma QuietHeader(f: Flash, s: nat, dirty: Dirty, steady: bool)
    requires s < |f| && Quiet(f, steady)
    ensures Quiet(f[s := f[s].(dirty := dirty)], steady)
  {
    HeaderCalm(f, f[s := f[s].(dirty := dirty)], steady);
    hide CalmBy;
    assert SettledSector(f[s]);
  }

  function Withdrawn(f: Flash, a: Addr): Flash
    requires In(f, a)
  {
    if At(f, a).status == WRITE then PreDeleted(f, a) else f
  }

  /** `move_kv`, as a relation between flash contents: the allocation that `Choose` grants or
      refuses decides, and in recovery a pending record is not copied if its key is live. */
  ghost predicate MoveEffect(f: Flash, g: Flash, a: Addr, oldest: nat, gc: bool, cap: nat, recovering: bool, ok: bool)
    requires In(f, a) && oldest < |f|
  {
    var f1 := Withdrawn(f, a);
    var t := Choose(f1, oldest, At(f, a).len, gc, cap);
    && ok == t.Some?
    && (!ok ==> g == f1)
    && (ok ==>
          if recovering && Pend(f, a) && HasLive(f, At(f, a).key) then g == Dropped(f1, a)
          else t.value < |f| && g == Dropped(Placed(f1, t.value, At(f, a).(status := WRITE)), a))
  }

  lemma WithdrawnIs(f: Flash, a: Addr)
    requires Kept(f, a)
    ensures Withdrawn(f, a) == if At(f, a).status == WRITE then PreDeleted(f, a) else f
    ensures |Withdrawn(f, a)| == |f| && (At(f, a).status == WRITE ==> Live(f, a) && !Pend(f, a))
    ensures At(f, a).status != WRITE ==> Pend(f, a)
  {
  }

  /** A move that finds no room leaves the record pending. */
  lemma MoveRefused(f: Flash, a: Addr, oldest: nat, gc: bool, cap: nat, recovering: bool)
    requires Kept(f, a) && oldest < |f| && Choose(Withdrawn(f, a), oldest, At(f, a).len, gc, cap).None?
    ensures var g := Withdrawn(f, a);
            MoveEffect(f, g, a, oldest, gc, cap, recovering, false) && In(g, a) && At(g, a).status == PRE_DELETE
  {
    hide Choose;
  }

  lemma MoveGranted(f: Flash, g: Flash, a: Addr, oldest: nat, gc: bool, cap: nat, recovering: bool, t: nat)
    requires Kept(f, a) && oldest < |f| && t < |f|
    requires Choose(Withdrawn(f, a), oldest, At(f, a).len, gc, cap) == Some(t)
    requires g == if recovering && Pend(f, a) && HasLive(f, At(f, a).key) then Dropped(Withdrawn(f, a), a)
                  else Dropped(Placed(Withdrawn(f, a), t, At(f, a).(status := WRITE)), a)
    ensures MoveEffect(f, g, a, oldest, gc, cap, recovering, true) && In(g, a) && At(g, a).status == DELETED
  {
    hide Choose; hide HasLive;
  }

  /** Records other than `a` stay, what is added is live, and only the sector of `a` may get dirty. */
  ghost predicate Frame(f: Flash, g: Flash, a: Addr) {
    && |g| == |f|
    && In(f, a) && In(g, a)
    && (forall b :: In(f, b) && b != a ==> In(g, b) && At(g, b) == At(f, b))
    && (forall b :: In(g, b) && !In(f, b) ==> At(g, b).status == WRITE && At(g, b).key == At(f, a).key)
    && (forall s: nat :: s < |f| ==> g[s].ok == f[s].ok && (s != a.sec ==> g[s].dirty == f[s].dirty))
  }

  lemma FrameTwice(f: Flash, g: Flash, h: Flash, a: Addr)
    requires Frame(f, g, a) && Frame(g, h, a) && At(g, a).key == At(f, a).key
    ensures Frame(f, h, a)
  {
  }

  lemma StatusIsFrame(f: Flash, a: Addr, st: KvStatus, g: Flash)
    requires In(f, a) && g == Marked(WithStatus(f, a, st), a.sec)
    ensures Frame(f, g, a) && At(g, a) == At(f, a).(status := st)
    ensures g[a.sec].dirty == if f[a.sec].dirty == DIRTY_FALSE then DIRTY_TRUE else f[a.sec].dirty
    ensures |g[a.sec].recs| == |f[a.sec].recs| && g[a.sec].store == f[a.sec].store
  {
    StatusFrame(f, a, st, g);
    StatusSpace(f, a, st, g);
  }

  lemma PlacedIsFrame(f: Flash, t: nat, r: Rec, a: Addr)
    requires In(f, a) && t < |f| && f[t].ok && r.hdr && f[t].store in {STORE_EMPTY, STORE_USING}
    requires r.status == WRITE && r.key == At(f, a).key
    ensures Frame(f, Placed(f, t, r), a) && At(Placed(f, t, r), a) == At(f, a)
    ensures Placed(f, t, r)[a.sec].dirty == f[a.sec].dirty
    ensures t != a.sec ==> Placed(f, t, r)[a.sec] == f[a.sec]
  {
    PlacedFrame(f, t, r, Placed(f, t, r));
  }

  lemma MoveFrame(f: Flash, g: Flash, a: Addr, oldest: nat, gc: bool, cap: nat, recovering: bool, ok: bool)
    requires FlashOk(f, cap) && oldest < |f| && Kept(f, a) && MoveEffect(f, g, a, oldest, gc, cap, recovering, ok)
    ensures Frame(f, g, a)
    ensures At(g, a) == At(f, a).(status := if ok then DELETED else PRE_DELETE)
    ensures g[a.sec].dirty == if f[a.sec].dirty == DIRTY_FALSE && (ok || Live(f, a)) then DIRTY_TRUE else f[a.sec].dirty
    ensures gc && f[a.sec].dirty == DIRTY_GC ==>
              |g[a.sec].recs| == |f[a.sec].recs| && g[a.sec].store == f[a.sec].store
  {
    hide Frame;
    hide Choose;
    hide Placed;
    hide FlashOk;
    var f1, r := Withdrawn(f, a), At(f, a).(status := WRITE);
    var t := Choose(f1, oldest, At(f, a).len, gc, cap);
    KeptFactsSector(f, cap, a);
    StatusIsFrame(f, a, PRE_DELETE, PreDeleted(f, a));
    FrameSame(f, a);
    ChooseExact(f1, oldest, At(f, a).len, gc, cap);
    if ok {
      if recovering && Pend(f, a) && HasLive(f, At(f, a).key) {
        StatusIsFrame(f1, a, DELETED, g);
        FrameTwice(f, f1, g, a);
      } else {
        var f2 := Placed(f1, t.value, r);
        PlacedIsFrame(f1, t.value, r, a);
        StatusIsFrame(f2, a, DELETED, g);
        FrameTwice(f, f1, f2, a);
        FrameTwice(f, f2, g, a);
      }
    }
  }

  lemma FrameSame(f: Flash, a: Addr)
    requires In(f, a)
    ensures Frame(f, f, a)
  {
  }

  lemma KeptFactsSector(f: Flash, cap: nat, a: Addr)
    requires FlashOk(f, cap) && Kept(f, a)
    ensures SectorOk(f[a.sec], cap) && f[a.sec].ok && RecOk(At(f, a), a.idx == 0) && At(f, a).hdr
  {
    assert SectorOk(f[a.sec], cap);
  }

  /** While sector `s` is being collected up to record `i`: either no EMPTY sector has been used yet,
      or exactly one has, and it holds nothing but records moved out of `s`. */
  ghost predicate Reserve(f: Flash, s: nat, i: nat, t: Option<nat>, empties: nat) {
    && s < |f| && i <= |f[s].recs| && empties > 0
    && (t.None? ==> EmptyCount(f) == empties)
    && (t.Some? ==>
          && t.value < |f| && t.value != s && f[t.value].ok
          && f[t.value].store == STORE_USING && f[t.value].dirty == DIRTY_FALSE
          && Free(f[t.value].recs) <= Used(f[s].recs[..i])
          && EmptyCount(f) == empties - 1)
  }

  lemma ReserveSkip(f: Flash, s: nat, i: nat, t: Option<nat>, empties: nat)
    requires Reserve(f, s, i, t, empties) && i < |f[s].recs|
    ensures Reserve(f, s, i + 1, t, empties)
  {
    UsedPrefix(f[s].recs, i);
  }

  /** The next record of the sector always finds room. */
  lemma ReserveRoom(f: Flash, s: nat, i: nat, t: Option<nat>, empties: nat, oldest: nat, cap: nat) returns (u: nat)
    requires Reserve(f, s, i, t, empties) && i < |f[s].recs|
    requires FlashOk(f, cap) && f[s].dirty == DIRTY_GC && oldest < |f|
    ensures u < |f| && Choose(f, oldest, f[s].recs[i].len, true, cap) == Some(u)
    ensures u != s && Fits(f[u], f[s].recs[i].len, true, cap) && f[u].store in {STORE_USING, STORE_EMPTY}
    ensures t.Some? ==> f[u].store == STORE_USING
  {
    assert SectorOk(f[s], cap);
    var tt: nat;
    if t.Some? {
      tt := t.value;
    } else {
      EmptyCountWitness(f);
      tt :| tt < |f| && f[tt].ok && f[tt].store == STORE_EMPTY;
      EmptySectors(f, cap, tt);
    }
    RoomForMove(f, oldest, cap, tt, f[s].recs, i);
    ChooseExact(f, oldest, f[s].recs[i].len, true, cap);
    u := Choose(f, oldest, f[s].recs[i].len, true, cap).value;
  }

  lemma ReserveStatus(f: Flash, g: Flash, s: nat, i: nat, k: nat, t: Option<nat>, empties: nat, st: KvStatus)
    requires Reserve(f, s, i, t, empties) && k < |f[s].recs|
    requires g == Marked(WithStatus(f, Addr(s, k), st), s)
    ensures Reserve(g, s, i, t, empties)
  {
    StatusSpace(f, Addr(s, k), st, g);
    UsedSameLengths(f[s].recs[..i], g[s].recs[..i]);
  }

  lemma ReservePlaced(f: Flash, s: nat, i: nat, t: Option<nat>, empties: nat, oldest: nat, cap: nat, r: Rec)
    returns (u: nat, t': Option<nat>)
    requires Reserve(f, s, i, t, empties) && i < |f[s].recs| && r.hdr && RecOk(r, false) && r.len == f[s].recs[i].len
    requires FlashOk(f, cap) && f[s].dirty == DIRTY_GC && oldest < |f|
    ensures Choose(f, oldest, r.len, true, cap) == Some(u) && u < |f|
    ensures Reserve(Placed(f, u, r), s, i + 1, t', empties)
    ensures Placed(f, u, r)[s] == f[s]
  {
    hide Choose; hide Placed; hide FlashOk; hide Fits; hide Free; hide Used; hide EmptyCount; hide Settled;
    u := ReserveRoom(f, s, i, t, empties, oldest, cap);
    FitsOk(f[u], r.len, true, cap);
    PlacedFrame(f, u, r, Placed(f, u, r));
    UsedPrefix(f[s].recs, i);
    t' := if f[u].store == STORE_EMPTY then Some(u) else t;
    if f[u].store == STORE_EMPTY {
      EmptySectors(f, cap, u);
      FreeOfNone();
    }
  }

  lemma FitsOk(x: Sector, size: nat, gc: bool, cap: nat)
    requires Fits(x, size, gc, cap)
    ensures x.ok && Free(x.recs) + size + REMAIN_THRESHOLD < cap
    ensures gc ==> x.dirty == DIRTY_FALSE
  {
  }

  lemma ReserveMove(f: Flash, g: Flash, s: nat, i: nat, t: Option<nat>, empties: nat, oldest: nat, cap: nat,
                    recovering: bool, ok: bool) returns (t': Option<nat>)
    requires Reserve(f, s, i, t, empties) && i < |f[s].recs| && Kept(f, Addr(s, i))
    requires FlashOk(f, cap) && f[s].dirty == DIRTY_GC && oldest < |f|
    requires MoveEffect(f, g, Addr(s, i), oldest, true, cap, recovering, ok)
    ensures ok && Reserve(g, s, i + 1, t', empties)
  {
    hide Reserve; hide Choose; hide FlashOk; hide Placed; hide Marked; hide Free; hide Used; hide Apart; hide EmptyCount;
    hide Settled; hide HasLive; hide Fits;
    var a, r := Addr(s, i), f[s].recs[i].(status := WRITE);
    var f1 := Withdrawn(f, a);
    StatusSpace(f, a, PRE_DELETE, PreDeleted(f, a));
    StatusFrame(f, a, PRE_DELETE, PreDeleted(f, a));
    StepStatusOk(f, cap, a, PRE_DELETE);
    ReserveStatus(f, PreDeleted(f, a), s, i, i, t, empties, PRE_DELETE);
    KeptFactsSector(f, cap, a);
    var u: nat;
    u, t' := ReservePlaced(f1, s, i, t, empties, oldest, cap, r);
    if recovering && Pend(f, a) && HasLive(f, At(f, a).key) {
      t' := t;
      ReserveSkip(f1, s, i, t, empties);
      ReserveStatus(f1, g, s, i + 1, i, t, empties, DELETED);
    } else {
      ReserveStatus(Placed(f1, u, r), g, s, i + 1, i, t', empties, DELETED);
    }
  }

  lemma StepStatusOk(f: Flash, cap: nat, a: Addr, st: KvStatus)
    requires FlashOk(f, cap) && Kept(f, a) && st in {PRE_DELETE, DELETED}
    ensures FlashOk(Marked(WithStatus(f, a, st), a.sec), cap)
  {
    KeptFactsSector(f, cap, a);
    SpaceOfStatus(f[a.sec].recs, a.idx, st);
  }

  function Losing(p: Promise, failed: set<Key>): Promise { p.(lost := p.lost + failed) }

  /** What two collections lose one after the other. */
  lemma LostTwice(f: Flash, g: Flash, h: Flash, p: Promise)
    requires StoredKeys(h) <= StoredKeys(g) <= StoredKeys(f)
    ensures Lost(f, g) + Lost(g, h) == Lost(f, h) && Lost(f, g) <= Lost(f, h)
    ensures Losing(Losing(p, Lost(f, g)), Lost(g, h)) == Losing(p, Lost(f, h))
  {
    hide StoredKeys;
    assert Lost(f, g) + Lost(g, h) == Lost(f, h);
    LosingTwice(p, Lost(f, g), Lost(g, h));
  }

  lemma LostNone(f: Flash, g: Flash, p: Promise)
    requires StoredKeys(g) == StoredKeys(f)
    ensures Lost(f, g) == {} && Losing(p, Lost(f, g)) == p
  {
    hide StoredKeys;
    LosingTwice(p, {}, {});
  }

  lemma RanLosing(h: seq<Flash>, h': seq<Flash>, cap: nat, p: Promise, failed: set<Key>)
    requires Ran(h, h', cap, p)
    ensures Ran(h, h', cap, Losing(p, failed))
  {
    forall j | |h| <= j < |h'| ensures Recoverable(h'[j], cap, Losing(p, failed)) {
      KeepsWeaker(h'[j], p, p.lost + failed);
    }
  }

  lemma LosingTwice(p: Promise, failed: set<Key>, more: set<Key>)
    ensures Losing(Losing(p, failed), more) == Losing(p, failed + more)
    ensures Losing(p, {}) == p && Losing(p, failed).reserve == p.reserve
  {
    assert p.lost + failed + more == p.lost + (failed + more);
    assert p.lost + {} == p.lost;
  }

  lemma RanGrows(h0: seq<Flash>, h1: seq<Flash>, h2: seq<Flash>, cap: nat, p: Promise, before: set<Key>, failed: set<Key>)
    requires Ran(h0, h1, cap, Losing(p, before)) && Ran(h1, h2, cap, Losing(p, failed)) && before <= failed
    ensures Ran(h0, h2, cap, Losing(p, failed))
  {
    hide Recoverable;
    RanLosing(h0, h1, cap, Losing(p, before), failed);
    LosingTwice(p, before, failed);
    assert before + failed == failed;
  }

  /** Erasing and formatting a sector none of whose records is kept. */
  lemma FormattedFrame(f: Flash, s: nat, g: Flash)
    requires s < |f| && f[s].ok && f[s].store == STORE_USING && g == f[s := FORMATTED]
    ensures forall b :: In(g, b) <==> In(f, b) && b.sec != s
    ensures forall b :: In(g, b) ==> At(g, b) == At(f, b)
    ensures EmptyCount(g) == EmptyCount(f) + 1
    ensures Settled(f) ==> Settled(g)
  {
    EmptyCountUpdate(f, s, FORMATTED);
  }

  // ---------------------------------------------------------------- what a collection loses

  lemma StoredPreDelete(f: Flash, a: Addr)
    requires Live(f, a)
    ensures StoredKeys(PreDeleted(f, a)) == StoredKeys(f)
  {
    var g := PreDeleted(f, a);
    StatusFrame(f, a, PRE_DELETE, g);
    hide PreDeleted; hide Stored; hide StoredKeys;
    forall b | Kept(g, b) ensures Stored(f, At(g, b).key) {
      KeptIsStored(f, b);
    }
    forall b | Kept(f, b) ensures Stored(g, At(f, b).key) {
      KeptIsStored(g, b);
    }
    SameStored(f, g);
  }

  lemma KeptIsStored(f: Flash, b: Addr)
    requires Kept(f, b)
    ensures Stored(f, At(f, b).key)
  {
  }

  lemma SameStored(f: Flash, g: Flash)
    requires forall b :: Kept(g, b) ==> Stored(f, At(g, b).key)
    requires forall b :: Kept(f, b) ==> Stored(g, At(f, b).key)
    ensures StoredKeys(f) == StoredKeys(g)
  {
    hide StoredKeys;
    assert forall k :: Stored(f, k) <==> Stored(g, k);
  }

  lemma StoredDropped(f: Flash, a: Addr, other: Addr)
    requires Kept(f, a) && Kept(f, other) && other != a && At(f, other).key == At(f, a).key
    ensures StoredKeys(Dropped(f, a)) == StoredKeys(f)
  {
    var g := Dropped(f, a);
    StatusFrame(f, a, DELETED, g);
    assert forall b :: Kept(g, b) ==> Kept(f, b) && At(g, b) == At(f, b);
    forall b | Kept(f, b) ensures Stored(g, At(f, b).key) {
      assert Kept(g, if b == a then other else b);
    }
    SameStored(f, g);
  }

  lemma StoredPlaced(f: Flash, t: nat, r: Rec, a: Addr)
    requires t < |f| && Kept(f, a) && r.key == At(f, a).key
    ensures StoredKeys(Placed(f, t, r)) == StoredKeys(f)
  {
    var g := Placed(f, t, r);
    PlacedRecs(f, t, r, g);
    forall b | Kept(g, b) ensures Stored(f, At(g, b).key) {
      assert b != Addr(t, |f[t].recs|) ==> Kept(f, b);
    }
    forall b | Kept(f, b) ensures Stored(g, At(f, b).key) {
      assert Kept(g, b);
    }
    SameStored(f, g);
  }

  /** A move keeps what is stored, with or without room for it. */
  lemma MoveStored(f: Flash, g: Flash, a: Addr, oldest: nat, gc: bool, cap: nat, recovering: bool, ok: bool)
    requires oldest < |f| && Kept(f, a) && MoveEffect(f, g, a, oldest, gc, cap, recovering, ok)
    ensures StoredKeys(g) == StoredKeys(f)
  {
    hide StoredKeys; hide Choose; hide Placed; hide Dropped; hide PreDeleted; hide HasLive; hide Marked;
    var f1, r := Withdrawn(f, a), At(f, a).(status := WRITE);
    if Live(f, a) {
      StoredPreDelete(f, a);
    }
    WithdrawnPends(f, a);
    var t := Choose(f1, oldest, At(f, a).len, gc, cap);
    if ok {
      if recovering && Pend(f, a) && HasLive(f, At(f, a).key) {
        var b := LiveOne(f, At(f, a).key);
        StoredDropped(f1, a, b);
      } else {
        var f2 := Placed(f1, t.value, r);
        StoredPlaced(f1, t.value, r, a);
        PlacedRecs(f1, t.value, r, f2);
        StoredDropped(f2, a, Addr(t.value, |f1[t.value].recs|));
      }
    }
  }

  lemma WithdrawnPends(f: Flash, a: Addr)
    requires Kept(f, a)
    ensures var g := Withdrawn(f, a); |g| == |f| && Pend(g, a) && At(g, a).key == At(f, a).key
    ensures Pend(f, a) ==> Withdrawn(f, a) == f
  {
    StatusFrame(f, a, PRE_DELETE, PreDeleted(f, a));
  }

  lemma LiveOne(f: Flash, k: Key) returns (b: Addr)
    requires HasLive(f, k)
    ensures Live(f, b) && At(f, b).key == k
  {
    b :| Live(f, b) && At(f, b).key == k;
  }

  /** No sector can take a record of this size, not even for a collection. */
  predicate NoRoom(f: Flash, size: nat, cap: nat) {
    forall t: nat :: t < |f| && f[t].store in {STORE_USING, STORE_EMPTY} ==> !Fits(f[t], size, true, cap)
  }

  /** Sector `s` is the only one to collect, and none of what it holds finds room. */
  ghost predicate Doomed(f: Flash, s: nat, cap: nat) {
    && s < |f| && f[s].ok && f[s].dirty in {DIRTY_TRUE, DIRTY_GC}
    && (forall t: nat :: t < |f| && t != s ==> f[t].dirty !in {DIRTY_TRUE, DIRTY_GC})
    && forall i: nat :: Kept(f, Addr(s, i)) ==> Pend(f, Addr(s, i)) && NoRoom(f, At(f, Addr(s, i)).len, cap)
  }

  lemma DoomedMarked(f: Flash, s: nat, cap: nat)
    requires s < |f|
    ensures Doomed(f, s, cap) ==> Doomed(f[s := f[s].(dirty := DIRTY_GC)], s, cap)
  {
    hide Free;
    if Doomed(f, s, cap) {
      var g := f[s := f[s].(dirty := DIRTY_GC)];
      assert forall i: nat :: Kept(g, Addr(s, i)) ==> Kept(f, Addr(s, i)) && At(g, Addr(s, i)) == At(f, Addr(s, i));
    }
  }

  lemma DoomedAlone(f: Flash, s: nat, u: nat, cap: nat)
    requires Doomed(f, s, cap) && u < |f| && f[u].dirty in {DIRTY_TRUE, DIRTY_GC}
    ensures u == s
  {
  }

  lemma DoomedDone(f: Flash, s: nat, cap: nat)
    requires Doomed(f, s, cap)
    ensures NothingDirty(f[s := FORMATTED])
  {
  }

  /** A move out of such a sector fails and changes nothing. */
  lemma DoomedMove(f: Flash, g: Flash, s: nat, i: nat, oldest: nat, cap: nat, recovering: bool, ok: bool)
    requires Doomed(f, s, cap) && Kept(f, Addr(s, i)) && oldest < |f|
    requires MoveEffect(f, g, Addr(s, i), oldest, true, cap, recovering, ok)
    ensures g == f
  {
    hide Choose; hide Fits;
    ChooseExact(f, oldest, At(f, Addr(s, i)).len, true, cap);
  }

  /** Half-way through collecting sector `s`, which began with the content `f0`; `starved` says that a record
      has found no room. */
  ghost predicate Collecting(f0: Flash, f: Flash, s: nat, i: nat, starved: bool) {
    && |f| == |f0| && s < |f| && i <= |f[s].recs|
    && f[s].ok && f[s].store == STORE_USING && f[s].dirty == DIRTY_GC
    && (!starved ==> forall k: nat :: k < i ==> !Kept(f, Addr(s, k)))
    && StoredKeys(f) == StoredKeys(f0)
    && (forall b :: Pend(f, b) ==> Pend(f0, b) || (b.sec == s && b.idx < i))
    && (forall b :: Torn(f, b) ==> Torn(f0, b))
    && (forall u: nat :: u < |f0| && u != s ==> f[u].ok == f0[u].ok && f[u].dirty == f0[u].dirty)
    && (forall u: nat :: u < |f0| && u != s && f0[u].dirty in {DIRTY_TRUE, DIRTY_GC} ==> f[u] == f0[u])
  }

  /** What a collection moves never goes to a dirty sector. */
  lemma MoveUntouched(f: Flash, g: Flash, a: Addr, oldest: nat, cap: nat, recovering: bool, ok: bool)
    requires oldest < |f| && Kept(f, a) && MoveEffect(f, g, a, oldest, true, cap, recovering, ok)
    ensures |g| == |f|
    ensures forall u: nat :: u < |f| && u != a.sec && f[u].dirty in {DIRTY_TRUE, DIRTY_GC} ==> g[u] == f[u]
  {
    hide Choose; hide Free; hide EmptyCount; hide HasLive;
    ChooseExact(Withdrawn(f, a), oldest, At(f, a).len, true, cap);
  }

  lemma CollectingMove(f0: Flash, f: Flash, g: Flash, s: nat, i: nat, starved: bool, oldest: nat, cap: nat,
                       recovering: bool, ok: bool)
    requires Collecting(f0, f, s, i, starved) && Kept(f, Addr(s, i))
    requires FlashOk(f, cap) && oldest < |f| && MoveEffect(f, g, Addr(s, i), oldest, true, cap, recovering, ok)
    ensures Collecting(f0, g, s, i + 1, starved || !ok)
    ensures |g| == |f| && |g[s].recs| == |f[s].recs|
  {
    hide MoveEffect; hide StoredKeys;
    MoveUntouched(f, g, Addr(s, i), oldest, cap, recovering, ok);
    MoveStored(f, g, Addr(s, i), oldest, true, cap, recovering, ok);
    MoveFrame(f, g, Addr(s, i), oldest, true, cap, recovering, ok);
  }

  lemma CollectingSkip(f0: Flash, f: Flash, s: nat, i: nat, starved: bool)
    requires Collecting(f0, f, s, i, starved) && i < |f[s].recs| && !Kept(f, Addr(s, i))
    ensures Collecting(f0, f, s, i + 1, starved)
  {
  }

  lemma CollectingStart(f0: Flash, f: Flash, s: nat)
    requires s < |f0| && f == f0[s := f0[s].(dirty := DIRTY_GC)] && f[s].ok && f[s].store == STORE_USING
    ensures Collecting(f0, f, s, 0, false)
    ensures forall a :: Live(f0, a) ==> Live(f, a) && At(f, a) == At(f0, a)
    ensures EmptyCount(f) == EmptyCount(f0)
    ensures EmptyCount(f0) > 0 ==> Reserve(f, s, 0, None, EmptyCount(f0))
  {
    EmptyCountUpdate(f0, s, f[s]);
    forall b | Kept(f, b) ensures Stored(f0, At(f, b).key) {
      assert Kept(f0, b);
    }
    forall b | Kept(f0, b) ensures Stored(f, At(f0, b).key) {
      assert Kept(f, b);
    }
    SameStored(f0, f);
  }

  lemma CollectingFacts(f0: Flash, f: Flash, s: nat, i: nat, starved: bool)
    requires Collecting(f0, f, s, i, starved)
    ensures |f| == |f0| && s < |f| && i <= |f[s].recs| && f[s].ok && f[s].store == STORE_USING && f[s].dirty == DIRTY_GC
    ensures NoPending(f0) ==> !Pend(f, Addr(s, i))
  {
  }

  lemma CollectingDone(f0: Flash, f: Flash, g: Flash, s: nat, starved: bool, t: Option<nat>, empties: nat)
    requires s < |f| && Collecting(f0, f, s, |f[s].recs|, starved) && g == f[s := FORMATTED]
    ensures empties > 0 && Reserve(f, s, |f[s].recs|, t, empties) ==> EmptyCount(g) >= empties
    ensures forall u: nat :: u < |g| && u != s ==> g[u].ok == f0[u].ok && g[u].dirty == f0[u].dirty
    ensures forall u: nat :: u < |g| && u != s && f0[u].dirty in {DIRTY_TRUE, DIRTY_GC} ==> g[u] == f0[u]
    ensures forall b :: Pend(g, b) ==> Pend(f0, b)
    ensures forall b :: Torn(g, b) ==> Torn(f0, b)
    ensures !starved ==> forall a :: Live(f, a) ==> Live(g, a) && At(g, a) == At(f, a)
    ensures !starved ==> StoredKeys(g) == StoredKeys(f0)
    ensures StoredKeys(g) <= StoredKeys(f0)
    ensures Settled(f) ==> Settled(g)
  {
    hide StoredKeys; hide Reserve; hide Settled; hide EmptyCount;
    FormattedFrame(f, s, g);
    ReserveBack(f, s, t, empties);
    forall a | !starved && Kept(f, a) ensures Kept(g, a) && At(g, a) == At(f, a) {
      assert a == Addr(a.sec, a.idx);
      assert a.sec == s ==> !Kept(f, Addr(s, a.idx));
    }
    forall b | Kept(g, b) ensures Stored(f, At(g, b).key) {
      assert Kept(f, b);
    }
    if !starved {
      forall b | Kept(f, b) ensures Stored(g, At(f, b).key) {
        assert Kept(g, b);
      }
      SameStored(f, g);
    }
    forall k | k in StoredKeys(g) ensures k in StoredKeys(f) {
    }
  }

  lemma ReserveBack(f: Flash, s: nat, t: Option<nat>, empties: nat)
    requires s < |f|
    ensures empties > 0 && Reserve(f, s, |f[s].recs|, t, empties) ==> EmptyCount(f) + 1 >= empties
  {
  }

  /** Nothing is pending, except perhaps `o`. */
  ghost predicate OnlyPending(f: Flash, o: Option<Addr>) { forall b :: Pend(f, b) ==> o == Some(b) }

  lemma PreDeletedOnly(f: Flash, a: Addr)
    requires NoPending(f) && Live(f, a)
    ensures OnlyPending(PreDeleted(f, a), Some(a)) && EmptyCount(PreDeleted(f, a)) == EmptyCount(f)
    ensures forall s: nat :: s < |f| ==> EmptyBit(PreDeleted(f, a)[s]) == EmptyBit(f[s])
    ensures forall s: nat :: s < |f| ==> |PreDeleted(f, a)[s].recs| == |f[s].recs|
  {
    StatusSpace(f, a, PRE_DELETE, PreDeleted(f, a));
    StatusFrame(f, a, PRE_DELETE, PreDeleted(f, a));
    assert forall b :: Pend(PreDeleted(f, a), b) ==> b == a || Pend(f, b);
  }

  lemma PlacedOnly(f: Flash, t: nat, r: Rec, o: Option<Addr>)
    requires t < |f| && f[t].ok && f[t].store in {STORE_EMPTY, STORE_USING} && r.hdr && r.status == WRITE
    requires OnlyPending(f, o)
    ensures OnlyPending(Placed(f, t, r), o)
    ensures Live(Placed(f, t, r), Addr(t, |f[t].recs|)) && At(Placed(f, t, r), Addr(t, |f[t].recs|)) == r
    ensures EmptyCount(Placed(f, t, r)) == EmptyCount(f) - EmptyBit(f[t])
  {
    PlacedFrame(f, t, r, Placed(f, t, r));
    assert forall b :: Pend(Placed(f, t, r), b) ==> Pend(f, b);
  }

  lemma DroppedOnly(f: Flash, a: Addr)
    requires OnlyPending(f, Some(a)) && Pend(f, a)
    ensures NoPending(Dropped(f, a)) && EmptyCount(Dropped(f, a)) == EmptyCount(f)
    ensures forall b :: Live(f, b) ==> Live(Dropped(f, a), b) && At(Dropped(f, a), b) == At(f, b)
  {
    StatusSpace(f, a, DELETED, Dropped(f, a));
    StatusFrame(f, a, DELETED, Dropped(f, a));
    assert forall b :: Pend(Dropped(f, a), b) ==> Pend(f, b);
  }

  /** `fdb_kv_del` on the flash: the key has no live record left, and no other key is touched. */
  lemma DeletedOnly(f: Flash, a: Addr)
    requires NoPending(f) && OneLive(f) && Live(f, a) && Settled(f)
    ensures NoPending(Dropped(f, a)) && !HasLive(Dropped(f, a), At(f, a).key)
    ensures EmptyCount(Dropped(f, a)) == EmptyCount(f) && Settled(Dropped(f, a))
    ensures forall b :: Live(f, b) && b != a ==> Live(Dropped(f, a), b) && At(Dropped(f, a), b) == At(f, b)
  {
    var g := Dropped(f, a);
    StatusSpace(f, a, DELETED, g);
    StatusFrame(f, a, DELETED, g);
    assert forall b :: Pend(g, b) ==> Pend(f, b);
    assert forall b :: Live(g, b) ==> b != a && Live(f, b) && At(g, b) == At(f, b);
  }

  lemma RanOpens(h: seq<Flash>, h': seq<Flash>, cap: nat, m: map<Key, Value>, m': map<Key, Value>)
    requires Ran(h, h', cap, Exactly(m).(tidy := true))
    ensures Ran(h, h', cap, Changing(m, m').(reserve := 0, tidy := true))
  {
    forall j | |h| <= j < |h'| ensures Recoverable(h'[j], cap, Changing(m, m').(reserve := 0, tidy := true)) {
      OtherTidy(h'[j], Exactly(m).(tidy := true), Exactly(m));
      PromiseOpens(h'[j], m, m');
    }
  }

  // ---------------------------------------------------------------- boot

  lemma SameRecsFormatted(f: Flash, g: Flash, cap: nat)
    requires |f| == |g| && FlashOk(f, cap)
    requires forall s: nat :: s < |f| ==> g[s] == if f[s].ok then f[s] else FORMATTED
    ensures SameRecs(f, g)
  {
    assert forall s: nat :: s < |f| ==> SectorOk(f[s], cap);
  }

  const BLANK: Rec := Rec(ERR_HDR, false, [], [], KV_HDR, false)

  /** What the first walk that reads the sector makes of it: a first slot without a record header is given up. */
  function SettledAs(x: Sector): Sector {
    if x.store != STORE_USING then x
    else if x.recs == [] then x.(recs := [BLANK])
    else if x.recs[0].hdr then x
    else x.(recs := x.recs[0 := x.recs[0].(status := ERR_HDR)])
  }

  lemma SettledOnce(f: Flash)
    ensures Settled(f) <==> forall s: nat :: s < |f| ==> SettledAs(f[s]) == f[s]
    ensures forall s: nat :: s < |f| ==> SettledSector(SettledAs(f[s]))
  {
    if forall s: nat :: s < |f| ==> SettledAs(f[s]) == f[s] {
      forall s: nat | s < |f| ensures SettledSector(f[s]) {
        assert SettledAs(f[s]) == f[s];
        assert f[s].store == STORE_USING ==> f[s].recs != [];
      }
    }
    if Settled(f) {
      forall s: nat | s < |f| ensures SettledAs(f[s]) == f[s] {
        assert SettledSector(f[s]);
      }
    }
  }

  lemma AppendTidy(f: Flash, s: nat, r: Rec)
    requires s < |f| && r.status != PRE_DELETE
    ensures PendingDirty(f) ==> PendingDirty(WithNew(f, s, r))
  {
    Extended(f, s, r);
    StaysTidy(f, WithNew(f, s, r));
  }

  lemma StatusTidy(f: Flash, a: Addr, st: KvStatus)
    requires In(f, a) && (st == PRE_DELETE ==> f[a.sec].dirty in {DIRTY_TRUE, DIRTY_GC})
    ensures PendingDirty(f) ==> PendingDirty(WithStatus(f, a, st))
  {
    Rewritten(f, a, At(f, a).(status := st));
  }

  lemma HeaderTidy(f: Flash, g: Flash)
    requires SameRecs(f, g) && forall s: nat :: s < |f| ==> f[s].dirty.Rank() <= g[s].dirty.Rank()
    ensures PendingDirty(f) ==> PendingDirty(g)
  {
    assert forall b :: Pend(g, b) ==> Pend(f, b);
    StaysTidy(f, g);
  }

  lemma ErasedTidy(f: Flash, s: nat, x: Sector)
    requires s < |f| && x.recs == []
    ensures PendingDirty(f) ==> PendingDirty(f[s := x])
  {
    assert forall b :: Pend(f[s := x], b) ==> Pend(f, b) && b.sec != s;
  }

  lemma BlankStep(f: Flash, cap: nat, s: nat, p: Promise)
    requires Recoverable(f, cap, p) && s < |f| && f[s].store == STORE_USING && f[s].recs == []
    requires KV_HDR + REMAIN_THRESHOLD < cap
    ensures NorStep(f, WithNew(f, s, BLANK)) && Recoverable(WithNew(f, s, BLANK), cap, p)
  {
    AppendTidy(f, s, BLANK);
    hide PendingDirty;
    SectorFacts(f, cap, s);
    CountNew(f, s, BLANK);
    StepNew(f, cap, s, BLANK);
    KeepsAppend(f, s, BLANK, p);
  }

  lemma BareStep(f: Flash, cap: nat, s: nat, p: Promise)
    requires Recoverable(f, cap, p) && s < |f| && f[s].recs != [] && !f[s].recs[0].hdr
    ensures var g := WithStatus(f, Addr(s, 0), ERR_HDR);
            NorStep(f, g) && Recoverable(g, cap, p)
  {
    hide FlashOk; hide Keeps; hide PendingDirty; hide EmptyCount; hide NorStep; hide Free; hide Used;
    var a := Addr(s, 0);
    BareRec(f, cap, s);
    StatusTidy(f, a, ERR_HDR);
    CountRec(f, a, At(f, a).(status := ERR_HDR));
    StepStatus(f, cap, a, ERR_HDR);
    KeepsIdle(f, a, At(f, a).(status := ERR_HDR), p);
    Rewritten(f, a, At(f, a).(status := ERR_HDR));
  }

  lemma BareRec(f: Flash, cap: nat, s: nat)
    requires FlashOk(f, cap) && s < |f| && f[s].recs != [] && !f[s].recs[0].hdr
    ensures !f[s].recs[0].crcOk && f[s].recs[0].status in {PRE_WRITE, ERR_HDR}
  {
    SectorFacts(f, cap, s);
    assert RecOk(f[s].recs[0], true);
  }

  ghost predicate NothingDirty(f: Flash) {
    forall s: nat :: s < |f| ==> f[s].dirty !in {DIRTY_TRUE, DIRTY_GC}
  }

  /** No collection has been cut short. */
  predicate NoGc(f: Flash) { forall s: nat :: s < |f| ==> f[s].dirty != DIRTY_GC }

  lemma MarkedNow(f: Flash, s: nat)
    requires s < |f| && f[s].dirty == DIRTY_GC
    ensures !NoGc(f)
  {
  }

  lemma PendingStaysDirty(f: Flash, g: Flash, s: nat)
    requires |f| == |g| && s < |f| && g[s] == FORMATTED
    requires forall t: nat :: t < |g| && t != s ==> g[t].dirty == f[t].dirty
    requires forall b :: Pend(g, b) ==> Pend(f, b)
    ensures PendingDirty(f) ==> PendingDirty(g)
  {
  }
}
