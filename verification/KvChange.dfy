/**
 Writing records, and the set and delete operations, as relations between flash contents: what makes each step
 possible, and what it leaves behind.
 */
module KvChange {
  import opened FdbDef
  import opened KvAlloc
  import opened KvCache
  import opened KvCollect
  import opened KvDevice
  import opened KvEffects
  import opened KvFlash
  import opened KvSectorCache
  import opened Wrappers
  import FlashScan

  /** Sector `t` is in use and keeps the threshold free behind a record of this length. */
  predicate Roomy(f: Flash, cap: nat, t: nat, len: nat) {
    && FlashOk(f, cap) && t < |f| && f[t].ok && f[t].store == STORE_USING
    && Free(f[t].recs) + len + REMAIN_THRESHOLD < cap
  }

  /** Every complete record ends before the free offset. */
  predicate Behind(recs: seq<Rec>) {
    forall i :: 0 <= i < |recs| && recs[i].crcOk ==> Free(recs[..i]) + recs[i].len <= Free(recs)
  }

  lemma LandsBehind(f: Flash, cap: nat, t: nat)
    requires FlashOk(f, cap) && t < |f|
    ensures Behind(f[t].recs)
  {
    var recs := f[t].recs;
    SectorFacts(f, cap, t);
    hide Free; hide Apart;
    ApartExact(recs);
    assert recs[..|recs|] == recs;
  }

  lemma OpenStep(f: Flash, cap: nat, t: nat, p: Promise)
    requires Recoverable(f, cap, p) && t < |f| && f[t].store == STORE_EMPTY && f[t].ok
    requires EmptyCount(f) - EmptyBit(f[t]) >= p.reserve
    ensures NorStep(f, Opened(f, t)) && Recoverable(Opened(f, t), cap, p)
  {
    hide Keeps; hide FlashOk; hide PendingDirty; hide EmptyCount; hide NorStep; hide Free;
    var g := Opened(f, t);
    assert g == f[t := f[t].(store := STORE_USING, dirty := f[t].dirty)];
    StepHeader(f, cap, t, STORE_USING, f[t].dirty);
    EmptyCountUpdate(f, t, g[t]);
    KeepsHeaders(f, g, p);
    HeaderTidy(f, g);
  }

  lemma OpenAlready(f: Flash, t: nat)
    requires t < |f| && f[t].store == STORE_USING
    ensures Opened(f, t) == f
  {
  }

  lemma MarkedIsDirty(f: Flash, s: nat)
    requires s < |f|
    ensures Marked(f, s) == if f[s].dirty == DIRTY_FALSE then f[s := f[s].(dirty := DIRTY_TRUE)] else f
    ensures f[s].dirty == DIRTY_FALSE ==> Marked(f, s) != f
  {
    if f[s].dirty == DIRTY_FALSE {
      assert Marked(f, s)[s].dirty == DIRTY_TRUE;
    }
  }

  /** A record is withdrawn or dropped. */
  lemma StatusStep(f: Flash, cap: nat, a: Addr, st: KvStatus, other: Addr, p: Promise)
    requires Recoverable(f, cap, p) && st in {PRE_DELETE, DELETED}
    requires st == PRE_DELETE ==> Live(f, a) && (p.tidy ==> f[a.sec].dirty in {DIRTY_TRUE, DIRTY_GC})
    requires st == DELETED ==>
               && Kept(f, a)
               && ((Kept(f, other) && other != a && At(f, other).key == At(f, a).key) || !Owed(p, At(f, a).key))
    ensures In(f, a)
    ensures var g := WithStatus(f, a, st);
            && NorStep(f, g) && Recoverable(g, cap, p) && In(g, a) && At(g, a).key == At(f, a).key && g[a.sec].ok
            && (st == PRE_DELETE ==> !HasLive(g, At(f, a).key))
  {
    KeptFactsSector(f, cap, a);
    hide FlashOk; hide Keeps; hide PendingDirty; hide EmptyCount; hide NorStep; hide HasLive; hide Free;
    if st == PRE_DELETE {
      KeepsPreDelete(f, a, p);
    } else {
      KeepsDrop(f, a, other, p);
    }
    StepStatus(f, cap, a, st);
    CountRec(f, a, At(f, a).(status := st));
    if p.tidy {
      StatusTidy(f, a, st);
    }
  }

  /** A dirty mark on a sector in use. */
  lemma DirtyStep(f: Flash, cap: nat, s: nat, dirty: Dirty, p: Promise)
    requires Recoverable(f, cap, p) && s < |f| && f[s].ok
    requires (dirty == DIRTY_TRUE && f[s].dirty == DIRTY_FALSE && f[s].recs != [])
             || (dirty == DIRTY_GC && f[s].dirty in {DIRTY_TRUE, DIRTY_GC})
    ensures var g := f[s := f[s].(dirty := dirty)];
            NorStep(f, g) && Recoverable(g, cap, p) && EmptyCount(g) == EmptyCount(f) && g[s].ok && g[s].store == STORE_USING
  {
    SectorFacts(f, cap, s);
    hide Keeps; hide FlashOk; hide PendingDirty; hide EmptyCount; hide NorStep; hide Free; hide Apart;
    var g := f[s := f[s].(dirty := dirty)];
    assert g == f[s := f[s].(store := STORE_USING, dirty := dirty)];
    StepHeader(f, cap, s, STORE_USING, dirty);
    EmptyCountUpdate(f, s, g[s]);
    KeepsHeaders(f, g, p);
    HeaderTidy(f, g);
  }

  lemma FillStep(f: Flash, f0: Flash, cap: nat, t: nat, r: Rec, q: Rec, p: Promise)
    requires Roomy(f0, cap, t, q.len) && f == WithNew(f0, t, r) && Recoverable(f, cap, p)
    requires r.status == PRE_WRITE && q.status == PRE_WRITE && RecOk(q, f0[t].recs == []) && RecClears(r, q) && q.hdr
    requires q.crcOk ==> Takes(f0[t].recs, q)
    ensures t < |f| == |f0| && f[t].recs != [] && In(f, Addr(t, |f[t].recs| - 1))
    ensures var g := WithRec(f, Addr(t, |f[t].recs| - 1), q);
            g == WithNew(f0, t, q) && NorStep(f, g) && Recoverable(g, cap, p)
  {
    var a := Addr(t, |f0[t].recs|);
    Extended(f0, t, r);
    hide Keeps; hide FlashOk; hide NorStep; hide PendingDirty; hide RecClears; hide RecOk; hide Takes; hide Free;
    StepFill(f0, cap, t, r, q);
    Refilled(f0, t, r, q);
    KeepsIdle(f, a, q, p);
    CountRec(f, a, q);
    FillTidy(f, a, q);
  }

  lemma FillTidy(f: Flash, a: Addr, q: Rec)
    requires In(f, a) && q.status == PRE_WRITE
    ensures PendingDirty(f) ==> PendingDirty(WithRec(f, a, q))
  {
    Rewritten(f, a, q);
  }

  /** A copy of `r` of which `n` bytes from the magic word on are there: the header and a part of the payload. */
  function Partial(r: Rec, n: nat): Rec {
    var m: nat := if n < KV_HDR - FlashScan.MAGIC_OFFSET then 0 else n - (KV_HDR - FlashScan.MAGIC_OFFSET);
    if m < |r.key| then Rec(PRE_WRITE, true, r.key[..m], [], r.len, false)
    else if m - |r.key| < |r.value| then Rec(PRE_WRITE, true, r.key, r.value[..m - |r.key|], r.len, false)
    else Rec(PRE_WRITE, true, r.key, r.value, r.len, false)
  }

  function Copied(r: Rec, n: nat, x: Sector): Rec {
    if n == 0 then Bare(x) else if n + FlashScan.MAGIC_OFFSET < r.len then Partial(r, n) else r.(status := PRE_WRITE)
  }

  /** After so many bytes the copy has the header, the length of the record and exactly that much of name and value; it
      is complete once all bytes are there. */
  lemma CopiedPrefix(r: Rec, n: nat, x: Sector)
    requires RecOk(r, false) && r.crcOk && KV_HDR <= n + FlashScan.MAGIC_OFFSET <= r.len
    ensures var q := Copied(r, n, x);
            && q.status == PRE_WRITE && q.hdr && q.len == r.len
            && q.key + q.value == (r.key + r.value)[..n + FlashScan.MAGIC_OFFSET - KV_HDR]
            && (q.crcOk <==> n + FlashScan.MAGIC_OFFSET == r.len)
  {
  }

  /** The number of pieces of 32 bytes that a copy of so many bytes takes, and where a piece ends. */
  function Pieces(len: nat): nat
    requires len >= FlashScan.MAGIC_OFFSET
  {
    (len - FlashScan.MAGIC_OFFSET + 31) / 32
  }

  function PieceEnd(len: nat, k: nat): nat
    requires len >= FlashScan.MAGIC_OFFSET
  {
    if 32 * k < len - FlashScan.MAGIC_OFFSET then 32 * k else len - FlashScan.MAGIC_OFFSET
  }

  lemma PieceNext(len: nat, k: nat)
    requires len >= FlashScan.MAGIC_OFFSET
    ensures PieceEnd(len, 0) == 0
    ensures PieceEnd(len, k + 1) == if PieceEnd(len, k) + 32 < len - FlashScan.MAGIC_OFFSET then PieceEnd(len, k) + 32
                                    else len - FlashScan.MAGIC_OFFSET
    ensures PieceEnd(len, k) < len - FlashScan.MAGIC_OFFSET <==> k < Pieces(len)
  {
  }

  lemma CopyFacts(f: Flash, cap: nat, t: nat, r: Rec, p: Promise)
    requires Roomy(f, cap, t, r.len) && RecOk(r, false) && r.crcOk && Takes(f[t].recs, r) && Says(p, r)
    ensures Takes(f[t].recs, r.(status := PRE_WRITE)) && Says(p, r.(status := PRE_WRITE))
    ensures t < |f| && r.len >= KV_HDR > FlashScan.MAGIC_OFFSET && Copied(r, 0, f[t]) == Bare(f[t])
  {
  }

  lemma CopyStep(r: Rec, n: nat, size: nat, x: Sector)
    requires RecOk(r, false) && r.crcOk && n + FlashScan.MAGIC_OFFSET < r.len && n + size + FlashScan.MAGIC_OFFSET <= r.len
    requires size == 32 || n + size + FlashScan.MAGIC_OFFSET == r.len
    ensures var q := if n + size + FlashScan.MAGIC_OFFSET < r.len then Partial(r, n + size) else r.(status := PRE_WRITE);
            && q == Copied(r, n + size, x) && RecOk(q, x.recs == []) && RecClears(Copied(r, n, x), q)
            && q.hdr && q.len == r.len && (q.crcOk ==> q == r.(status := PRE_WRITE))
            && Copied(r, n, x).status == PRE_WRITE == q.status
  {
  }

  lemma CopyDone(r: Rec, n: nat, x: Sector)
    requires RecOk(r, false) && r.crcOk && n + FlashScan.MAGIC_OFFSET == r.len
    ensures Copied(r, n, x) == r.(status := PRE_WRITE) && r.(status := PRE_WRITE).(status := WRITE) == r.(status := WRITE)
  {
  }

  lemma SameTakes(recs: seq<Rec>, r: Rec, st: KvStatus)
    requires Takes(recs, r)
    ensures Takes(recs, r.(status := st))
  {
  }

  /** Before a copy: the place that the allocator has granted can take it. */
  lemma CopyPlan(f: Flash, oldest: nat, cap: nat, gc: bool, t: nat, a: Addr, kv: Rec, p: Promise, steady: bool)
    requires Recoverable(f, cap, p) && oldest < |f| && Choose(f, oldest, kv.len, gc, cap) == Some(t)
    requires Pend(f, a) && At(f, a) == kv.(status := PRE_DELETE) && kv.status in {WRITE, PRE_DELETE}
    requires Quiet(f, steady) && !HasLive(f, kv.key)
    requires p.reserve == 0 || (p.reserve == 1 && !gc)
    ensures t < |f| && f[t].ok && f[t].store in {STORE_EMPTY, STORE_USING} && Fits(f[t], kv.len, gc, cap)
    ensures EmptyCount(f) - EmptyBit(f[t]) >= p.reserve
    ensures f[t].store == STORE_EMPTY ==> EmptyCount(f) > GC_EMPTY_THRESHOLD || gc
    ensures RecOk(kv, false) && kv.crcOk && kv.hdr && RecOk(kv.(status := WRITE), f[t].recs == []) && Says(p, kv)
    ensures var g := Opened(f, t);
            && Roomy(g, cap, t, kv.len) && t < |g| && g[t].recs == f[t].recs && !HasLive(g, kv.key)
            && Takes(g[t].recs, kv) && Takes(g[t].recs, kv.(status := WRITE)) && (steady ==> Steady(g))
            && SECTOR_HDR + Free(g[t].recs) == TrueEmpty(g[t])
  {
    hide *;
    PlaceGranted(f, oldest, cap, gc, t, kv.len, p);
    CopySource(f, cap, a, kv, p, steady);
    OpenedRoom(f, cap, gc, t, kv);
    CalmTakes(f, steady, t, kv);
    SameTakes(f[t].recs, kv, WRITE);
    SteadyOpened(f, t, steady);
  }

  lemma SteadyOpened(f: Flash, t: nat, steady: bool)
    requires Quiet(f, steady) && t < |f|
    ensures steady ==> Steady(Opened(f, t))
  {
    hide Settled; hide Used; hide Free;
  }

  /** The mark of a collection stays when a record is withdrawn. */
  lemma StaysMarked(f: Flash, a: Addr)
    requires In(f, a)
    ensures !NoGc(f) ==> !NoGc(PreDeleted(f, a))
  {
    if s: nat :| s < |f| && f[s].dirty == DIRTY_GC {
      assert PreDeleted(f, a)[s].dirty == DIRTY_GC;
    }
  }

  lemma PlaceGranted(f: Flash, oldest: nat, cap: nat, gc: bool, t: nat, size: nat, p: Promise)
    requires Recoverable(f, cap, p) && oldest < |f| && Choose(f, oldest, size, gc, cap) == Some(t)
    requires p.reserve == 0 || (p.reserve == 1 && !gc)
    ensures t < |f| && f[t].ok && f[t].store in {STORE_EMPTY, STORE_USING} && Fits(f[t], size, gc, cap)
    ensures EmptyCount(f) - EmptyBit(f[t]) >= p.reserve && FlashOk(f, cap)
    ensures f[t].store == STORE_EMPTY ==> EmptyCount(f) > GC_EMPTY_THRESHOLD || gc
  {
    ChooseExact(f, oldest, size, gc, cap);
    hide Choose; hide Keeps; hide EmptyCount; hide Free; hide PendingDirty; hide FlashOk;
    EmptyCountWitness(f);
  }

  lemma CopySource(f: Flash, cap: nat, a: Addr, kv: Rec, p: Promise, steady: bool)
    requires Recoverable(f, cap, p) && Quiet(f, steady)
    requires Pend(f, a) && At(f, a) == kv.(status := PRE_DELETE) && kv.status in {WRITE, PRE_DELETE}
    ensures RecOk(kv, false) && RecOk(kv.(status := WRITE), false) && RecOk(kv.(status := WRITE), true)
    ensures kv.crcOk && kv.hdr && Says(p, kv) && CalmBy(f, steady) && (steady || EndsSolid(kv))
  {
    KeptFacts(f, cap, a, p);
    KeptSolid(f, steady, a, kv);
  }

  lemma OpenedRoom(f: Flash, cap: nat, gc: bool, t: nat, kv: Rec)
    requires FlashOk(f, cap) && t < |f| && f[t].ok && Fits(f[t], kv.len, gc, cap) && !HasLive(f, kv.key)
    ensures var g := Opened(f, t);
            && Roomy(g, cap, t, kv.len) && t < |g| && g[t].recs == f[t].recs && !HasLive(g, kv.key)
            && SECTOR_HDR + Free(g[t].recs) == TrueEmpty(g[t])
  {
    hide Free; hide Apart;
    OpenedOk(f, cap, t);
    NoLiveAfter(f, Opened(f, t), kv.key);
  }

  lemma OpenedOk(f: Flash, cap: nat, t: nat)
    requires FlashOk(f, cap) && t < |f| && f[t].ok
    ensures FlashOk(Opened(f, t), cap)
  {
    assert SectorOk(f[t], cap);
    hide Free; hide Apart; hide Used;
  }

  lemma CopyPlaced(f: Flash, g: Flash, cap: nat, t: nat, a: Addr, kv: Rec, p: Promise, steady: bool)
    requires Recoverable(f, cap, p) && t < |f| && f[t].ok && f[t].store in {STORE_EMPTY, STORE_USING}
    requires Pend(f, a) && At(f, a) == kv.(status := PRE_DELETE) && kv.status in {WRITE, PRE_DELETE}
    requires Quiet(f, steady) && g == WithNew(Opened(f, t), t, kv.(status := WRITE))
    ensures g == Placed(f, t, kv.(status := WRITE)) && Quiet(g, steady)
    ensures var kvAddr := Addr(t, |f[t].recs|); Live(g, kvAddr) && At(g, kvAddr) == kv.(status := WRITE)
    ensures Pend(g, a) && At(g, a) == At(f, a)
    ensures forall b :: Live(f, b) ==> Live(g, b) && At(g, b) == At(f, b)
  {
    KeptFacts(f, cap, a, p);
    KeptSolid(f, steady, a, kv.(status := WRITE));
    hide FlashOk; hide Keeps; hide EmptyCount; hide Free; hide Apart; hide CalmBy; hide Settled; hide Quiet; hide EndsSolid;
    QuietPlaced(f, cap, t, kv.(status := WRITE), steady);
    PlacedRecs(f, t, kv.(status := WRITE), g);
  }

  lemma CopyCached(f: Flash, g: Flash, c: Table, c': Table, key: Key, kvAddr: Addr, slot: nat)
    requires Live(g, kvAddr) && At(g, kvAddr).key == key && Mapped(c, c', NameCrc(key), kvAddr, slot)
    requires forall b :: Live(f, b) ==> Live(g, b) && At(g, b) == At(f, b)
    ensures CacheOk(f, c, {NameCrc(key)}) ==> CacheOk(g, c', {})
  {
    hide NameCrc; hide Mapped;
    var crc := NameCrc(key);
    if CacheOk(f, c, {crc}) {
      CacheFollows(f, g, c, {crc});
      CacheMapped(g, c, c', {crc}, crc, kvAddr, slot);
      assert {crc} - {crc} == {};
    }
  }

  // ---------------------------------------------------------------- set and delete

  /** The content between the PRE_DELETE of the old record of a key and the dirty mark of its sector. */
  ghost predicate CutMark(f: Flash, g: Flash, key: Key) {
    NoPending(f)
    && exists a :: Live(f, a) && At(f, a).key == key && f[a.sec].dirty == DIRTY_FALSE && g == WithStatus(f, a, PRE_DELETE)
  }

  /** After every step a collection could get at every pending record, but for the one step between PRE_DELETE and
      dirty mark. */
  ghost predicate TidyRun(h: seq<Flash>, h': seq<Flash>, key: Key) {
    && h != [] && h <= h'
    && forall j :: |h| <= j < |h'| ==> PendingDirty(h'[j]) || CutMark(h'[j - 1], h'[j], key)
  }

  lemma TidyNot(h: seq<Flash>, key: Key)
    requires h != []
    ensures TidyRun(h, h, key)
  {
  }

  lemma TidyOn(h: seq<Flash>, h': seq<Flash>, h'': seq<Flash>, cap: nat, p: Promise, key: Key)
    requires TidyRun(h, h', key) && Ran(h', h'', cap, p) && p.tidy
    ensures TidyRun(h, h'', key)
    ensures Ran(h, h', cap, p.(tidy := false)) ==> Ran(h, h'', cap, p.(tidy := false))
  {
    RanUntidy(h', h'', cap, p);
    hide CutMark;
    assert forall j :: |h'| <= j < |h''| ==> PendingDirty(h''[j]) by {
      hide PendingDirty;
    }
    hide Recoverable; hide PendingDirty;
    assert forall j :: 0 <= j < |h'| ==> h''[j] == h'[j];
  }

  lemma TidyTwice(h: seq<Flash>, h': seq<Flash>, h'': seq<Flash>, key: Key)
    requires TidyRun(h, h', key) && TidyRun(h', h'', key)
    ensures TidyRun(h, h'', key)
  {
    hide CutMark; hide PendingDirty;
    assert forall j :: 0 <= j < |h'| ==> h''[j] == h'[j];
  }

  lemma RanPlain(h: seq<Flash>, h': seq<Flash>, cap: nat, p: Promise)
    requires Ran(h, h', cap, p.(tidy := true)) && !p.tidy
    ensures Ran(h, h', cap, p)
  {
    RanUntidy(h, h', cap, p.(tidy := true));
    assert p.(tidy := true).(tidy := false) == p;
  }

  lemma WithTidy(f: Flash, cap: nat, p: Promise)
    requires Recoverable(f, cap, p.(tidy := false)) || Recoverable(f, cap, p)
    ensures Recoverable(f, cap, p.(tidy := false)) && (PendingDirty(f) ==> Recoverable(f, cap, p.(tidy := true)))
    ensures p.(tidy := true).(tidy := false) == p.(tidy := false)
  {
    hide FlashOk; hide PendingDirty;
    if Recoverable(f, cap, p) {
      OtherTidy(f, p, p.(tidy := false));
    }
    OtherTidy(f, p.(tidy := false), p.(tidy := true));
  }

  lemma WithoutTidy(f: Flash, cap: nat, p: Promise)
    requires Recoverable(f, cap, p.(tidy := true))
    ensures Recoverable(f, cap, p)
  {
    hide FlashOk; hide PendingDirty;
    OtherTidy(f, p.(tidy := true), p);
  }

  lemma Plain(m: map<Key, Value>, m': map<Key, Value>)
    ensures !Changing(m, m').tidy
  {
  }

  lemma WithdrawTidy(h: seq<Flash>, h': seq<Flash>, f: Flash, cap: nat, p: Promise, a: Addr, key: Key)
    requires FlashOk(f, cap) && NoPending(f) && Live(f, a) && At(f, a).key == key
    requires h != [] && h[|h| - 1] == f && Ran(h, h', cap, p) && |h| < |h'| <= |h| + 2
    requires h'[|h|] == WithStatus(f, a, PRE_DELETE) && h'[|h'| - 1] == PreDeleted(f, a)
    ensures TidyRun(h, h', key) && PendingDirty(PreDeleted(f, a))
  {
    hide *;
    CutTidy(f, cap, a, key);
    RanPrefix(h, h', cap, p);
    TidyPair(h, h', key);
  }

  lemma RanPrefix(h: seq<Flash>, h': seq<Flash>, cap: nat, p: Promise)
    requires Ran(h, h', cap, p)
    ensures h <= h'
  {
    hide Recoverable;
  }

  lemma TidyPair(h: seq<Flash>, h': seq<Flash>, key: Key)
    requires h != [] && h <= h' && |h| < |h'| <= |h| + 2 && PendingDirty(h'[|h'| - 1])
    requires PendingDirty(h'[|h|]) || CutMark(h[|h| - 1], h'[|h|], key)
    ensures TidyRun(h, h', key)
  {
    hide PendingDirty; hide CutMark;
    assert h'[|h| - 1] == h[|h| - 1];
  }

  lemma CutTidy(f: Flash, cap: nat, a: Addr, key: Key)
    requires FlashOk(f, cap) && NoPending(f) && Live(f, a) && At(f, a).key == key
    ensures PendingDirty(PreDeleted(f, a))
    ensures PendingDirty(WithStatus(f, a, PRE_DELETE)) || CutMark(f, WithStatus(f, a, PRE_DELETE), key)
  {
    var g, h := WithStatus(f, a, PRE_DELETE), PreDeleted(f, a);
    SectorFacts(f, cap, a.sec);
    Rewritten(f, a, At(f, a).(status := PRE_DELETE));
    hide FlashOk; hide Free; hide Apart; hide Used;
    assert forall b :: Pend(g, b) ==> b == a || Pend(f, b);
    StatusFrame(f, a, PRE_DELETE, h);
    assert forall b :: Pend(h, b) ==> b == a || Pend(f, b);
  }

  lemma ExactReserve(m: map<Key, Value>)
    ensures Exactly(m).(tidy := true).reserve == 0
  {
  }

  /** A collection with a sector in reserve changes nothing that a lookup sees. */
  lemma Unchanged(f: Flash, g: Flash, starved: bool, cap: nat, m: map<Key, Value>)
    requires Collected(f, g, starved) && EmptyCount(f) > 0 && NoPending(f)
    requires Recoverable(g, cap, Losing(Exactly(m).(tidy := true), Lost(f, g)))
    ensures !starved && EmptyCount(g) > 0 && NoPending(g) && Reads(g, m)
    ensures Losing(Exactly(m).(tidy := true), Lost(f, g)) == Exactly(m).(tidy := true)
  {
    CollectedFacts(f, g, starved);
    hide Keeps; hide FlashOk; hide PendingDirty; hide EmptyCount; hide StoredKeys; hide NoPending;
    LostNone(f, g, Exactly(m).(tidy := true));
    OtherTidy(g, Exactly(m).(tidy := true), Exactly(m));
    ReadsIsKeeps(g, m);
  }

  lemma WriteFacts(f: Flash, cap: nat, t: nat, key: Key, value: Value, p: Promise)
    requires Roomy(f, cap, t, KvLen(key, value)) && |key| < NAME_MAX && Takes(f[t].recs, NewRec(key, value))
    requires Bound(p.after, NewRec(key, value))
    ensures t < |f|
    ensures var len := KvLen(key, value);
            var header := Rec(PRE_WRITE, true, [], [], len, false);
            var named := header.(key := key);
            var whole := Rec(PRE_WRITE, true, key, value, len, true);
            && KV_HDR <= len
            && Bare(f[t]).status == PRE_WRITE && RecClears(Bare(f[t]), header) && RecOk(header, f[t].recs == [])
            && RecClears(header, named) && RecOk(named, f[t].recs == [])
            && RecClears(named, whole) && RecOk(whole, f[t].recs == [])
            && Takes(f[t].recs, whole) && Says(p, whole) && whole.(status := WRITE) == NewRec(key, value)
  {
  }

  lemma WrittenCoherent(f: Flash, cap: nat, t: SecTable, marked: set<nat>, s: nat, key: Key, value: Value)
    requires Coherent(f, cap, t, marked) && Roomy(f, cap, s, KvLen(key, value)) && |key| < NAME_MAX
    requires Takes(f[s].recs, NewRec(key, value))
    ensures s < |f|
    ensures Coherent(WithNew(f, s, NewRec(key, value)), cap,
                     EmptySet(t, s, SECTOR_HDR + Free(f[s].recs) + KvLen(key, value), cap), marked)
  {
    AppendedCoherent(f, cap, t, marked, s, NewRec(key, value));
  }

  /** Before a new record is written: the place that the allocator has granted can take it. */
  lemma NewPlan(f: Flash, cap: nat, gc: bool, t: nat, key: Key, value: Value, steady: bool)
    requires FlashOk(f, cap) && t < |f| && Fits(f[t], KvLen(key, value), gc, cap) && Quiet(f, steady)
    requires steady || EndsSolid(NewRec(key, value))
    requires !HasLive(f, key) && |key| != NAME_MAX && |key| <= NAME_MAX
    ensures var g := Opened(f, t);
            && t < |g| && Roomy(g, cap, t, KvLen(key, value)) && g[t].recs == f[t].recs && !HasLive(g, key)
            && Takes(g[t].recs, NewRec(key, value)) && |key| < NAME_MAX && (steady ==> Steady(g))
  {
    hide *;
    SteadyOpened(f, t, steady);
    FitsOk(f[t], KvLen(key, value), gc, cap);
    QuietCalm(f, steady);
    CalmTakes(f, steady, t, NewRec(key, value));
    NewLen(key, value);
    OpenedRoom(f, cap, gc, t, NewRec(key, value));
    ShortName(key);
  }

  lemma ShortName(key: Key)
    requires |key| != NAME_MAX && |key| <= NAME_MAX
    ensures |key| < NAME_MAX
  {
  }

  lemma NewLen(key: Key, value: Value)
    ensures var r := NewRec(key, value); r.len == KvLen(key, value) && r.key == key && r.value == value && r.hdr && r.crcOk
    ensures NewRec(key, value).status == WRITE
  {
  }

  lemma QuietCalm(f: Flash, steady: bool)
    requires Quiet(f, steady)
    ensures CalmBy(f, steady) && Settled(f)
  {
  }

  lemma NewPlaced(f: Flash, g: Flash, cap: nat, t: nat, key: Key, value: Value, steady: bool)
    requires FlashOk(f, cap) && t < |f| && f[t].store in {STORE_EMPTY, STORE_USING} && Quiet(f, steady)
    requires |key| < NAME_MAX && (steady || EndsSolid(NewRec(key, value)))
    requires g == WithNew(Opened(f, t), t, NewRec(key, value))
    ensures g == Placed(f, t, NewRec(key, value)) && Quiet(g, steady)
    ensures var kvAddr := Addr(t, |f[t].recs|); Live(g, kvAddr) && At(g, kvAddr).key == key
    ensures forall b :: Live(f, b) ==> Live(g, b) && At(g, b) == At(f, b)
  {
    SectorFacts(f, cap, t);
    hide FlashOk; hide EmptyCount; hide Free; hide Apart; hide Settled; hide Quiet; hide EndsSolid;
    QuietPlaced(f, cap, t, NewRec(key, value), steady);
    PlacedRecs(f, t, NewRec(key, value), g);
  }

  lemma ReplacePlan(f: Flash, cap: nat, t: nat, key: Key, value: Value)
    requires FlashOk(f, cap) && t < |f| && Fits(f[t], KvLen(key, value), false, cap)
    ensures f[t].ok
  {
  }

  lemma FitsUnrequested(f: Flash, g: Flash, t: nat, size: nat, cap: nat)
    requires t < |f| == |g| && Fits(f[t], size, false, cap) && g[t].ok == f[t].ok && Free(g[t].recs) == Free(f[t].recs)
    requires g[t].dirty == f[t].dirty || (f[t].dirty == DIRTY_FALSE && g[t].dirty == DIRTY_TRUE)
    ensures Fits(g[t], size, false, cap)
  {
  }

  /** With the old record pending the granted place still fits. */
  lemma ReplaceOn(f: Flash, g: Flash, cap: nat, t: nat, a: Addr, key: Key, value: Value)
    requires FlashOk(f, cap) && Live(f, a) && g == PreDeleted(f, a) && t < |f| && Fits(f[t], KvLen(key, value), false, cap)
    ensures |g| == |f| && g[t].ok && g[t].store == f[t].store && Fits(g[t], KvLen(key, value), false, cap)
    ensures EmptyCount(g) == EmptyCount(f) && EmptyBit(g[t]) == EmptyBit(f[t]) && |g[t].recs| == |f[t].recs|
  {
    hide FlashOk; hide EmptyCount; hide Free; hide Used; hide Settled;
    StatusSpace(f, a, PRE_DELETE, g);
    FitsUnrequested(f, g, t, KvLen(key, value), cap);
  }

  lemma PlacedNew(f: Flash, g: Flash, t: nat, key: Key, value: Value, o: Option<Addr>)
    requires t < |f| && f[t].ok && f[t].store in {STORE_EMPTY, STORE_USING} && g == Placed(f, t, NewRec(key, value))
    requires OnlyPending(f, o)
    ensures OnlyPending(g, o) && EmptyCount(g) == EmptyCount(f) - EmptyBit(f[t])
    ensures Live(g, Addr(t, |f[t].recs|)) && At(g, Addr(t, |f[t].recs|)) == NewRec(key, value)
  {
    hide EmptyCount;
    PlacedOnly(f, t, NewRec(key, value), o);
  }

  lemma PlacedKeeps(f: Flash, g: Flash, t: nat, key: Key, value: Value, a: Addr)
    requires t < |f| && g == Placed(f, t, NewRec(key, value)) && Pend(f, a)
    ensures Pend(g, a) && At(g, a) == At(f, a)
  {
    PlacedRecs(f, t, NewRec(key, value), g);
  }

  lemma NonePending(f: Flash)
    ensures OnlyPending(f, None) <==> NoPending(f)
  {
  }

  lemma ChangePlan(f: Flash, cap: nat, m: map<Key, Value>, key: Key, value: Value, t: nat, names: set<Key>)
    requires Recoverable(f, cap, Exactly(m).(tidy := true)) && EmptyCount(f) > 0 && t < |f|
    requires f[t].store == STORE_EMPTY ==> EmptyCount(f) > GC_EMPTY_THRESHOLD
    requires GoodNames(names) && key in names
    ensures var p := Changing(m, m[key := value]);
            && Recoverable(f, cap, p) && Bound(p.after, NewRec(key, value)) && EmptyCount(f) - EmptyBit(f[t]) >= p.reserve
    ensures |key| != NAME_MAX
  {
    hide FlashOk; hide PendingDirty; hide EmptyCount; hide Keeps; hide NameCrc;
    OtherTidy(f, Exactly(m).(tidy := true), Exactly(m));
    PromiseOpens(f, m, m[key := value]);
  }

  lemma FoundLive(f: Flash, r: Option<Addr>, key: Key)
    requires r.Some? ==> Live(f, r.value) && At(f, r.value).key == key
    ensures r.Some? ==> HasLive(f, key) && Kept(f, r.value) && In(f, r.value)
  {
  }

  lemma ChangeDone(f: Flash, cap: nat, m: map<Key, Value>, key: Key, value: Value)
    ensures var p := Changing(m, m[key := value]); p.(tidy := false) == p && p.reserve == 1
    ensures Recoverable(f, cap, Changing(m, m[key := value])) ==> EmptyCount(f) > 0
  {
  }

  lemma NewSettles(f: Flash, cap: nat, m: map<Key, Value>, key: Key, value: Value, a: Addr)
    requires Recoverable(f, cap, Changing(m, m[key := value])) && NoPending(f)
    requires Live(f, a) && At(f, a) == NewRec(key, value)
    ensures Reads(f, m[key := value])
  {
    hide FlashOk; hide Keeps; hide PendingDirty; hide Reads;
    SetSettles(f, m, key, value, a);
  }

  lemma MoreNames(m: map<Key, Value>, key: Key, value: Value, names: set<Key>)
    requires m.Keys <= names && key in names
    ensures m[key := value].Keys <= names
  {
  }

  lemma FewerNames(m: map<Key, Value>, key: Key, names: set<Key>)
    requires m.Keys <= names
    ensures (m - {key}).Keys <= names
  {
  }

  /** `new_kv` collects only for lack of room and with the reserve left, and no further than a record of this size needs. */
  ghost predicate MadeRoom(f0: Flash, f: Flash, start: nat, o: nat, cap: nat, size: nat) {
    && start < |f0| && o < |f|
    && if Choose(f0, start, size, false, cap).Some? || EmptyCount(f0) > GC_EMPTY_THRESHOLD then f == f0 && o == start
       else Stopped(f0, f, start, o, cap, size)
  }

  /** The flash after the old record, if there is one, has given way to a new one in sector `t`. */
  ghost predicate Overwrites(f: Flash, g: Flash, t: nat, key: Key, value: Value, oldKv: Option<Addr>) {
    && t < |f|
    && match oldKv
       case None => g == Placed(f, t, NewRec(key, value))
       case Some(a) =>
         && In(f, a) && g == Dropped(Placed(PreDeleted(f, a), t, NewRec(key, value)), a)
         && In(g, a) && At(g, a).status == DELETED && g[a.sec].dirty != DIRTY_FALSE
  }

  ghost predicate Overwritten(f: Flash, g: Flash, t: nat, key: Key, value: Value) {
    && (forall a :: Live(f, a) && At(f, a).key == key ==> Overwrites(f, g, t, key, value, Some(a)))
    && (!HasLive(f, key) ==> Overwrites(f, g, t, key, value, None))
  }

  /** A set from content `f0` to content `g`, by way of `f`, in which room has been made if there was none. */
  ghost predicate SetDone(f0: Flash, f: Flash, g: Flash, start: nat, o: nat, cap: nat, key: Key, value: Value, err: FdbErr) {
    && MadeRoom(f0, f, start, o, cap, KvLen(key, value)) && o < |f|
    && match Choose(f, o, KvLen(key, value), false, cap)
       case None => err == SAVED_FULL && g == f
       case Some(t) => if err == NO_ERR then Overwritten(f, g, t, key, value) else err == KV_NAME_ERR && g == f
  }

  lemma RoomAlready(f: Flash, o: nat, cap: nat, size: nat)
    requires o < |f|
    ensures Choose(f, o, size, false, cap).Some? || EmptyCount(f) > GC_EMPTY_THRESHOLD ==> MadeRoom(f, f, o, o, cap, size)
  {
    hide Choose; hide EmptyCount; hide Stopped;
  }

  lemma RoomMade(f0: Flash, f: Flash, start: nat, o: nat, cap: nat, size: nat)
    requires start < |f0| && o < |f|
    requires Choose(f0, start, size, false, cap).None? && EmptyCount(f0) <= GC_EMPTY_THRESHOLD
    requires Stopped(f0, f, start, o, cap, size)
    ensures MadeRoom(f0, f, start, o, cap, size)
  {
    hide Choose; hide EmptyCount; hide Stopped;
  }

  lemma RoomKept(f0: Flash, f: Flash, start: nat, o: nat, cap: nat, size: nat)
    requires MadeRoom(f0, f, start, o, cap, size)
    ensures Choose(f0, start, size, false, cap).Some? ==> f == f0 && o == start
  {
    hide Choose; hide EmptyCount; hide Stopped;
  }

  lemma SetIsDone(f0: Flash, f: Flash, g: Flash, start: nat, o: nat, cap: nat, key: Key, value: Value, err: FdbErr)
    requires MadeRoom(f0, f, start, o, cap, KvLen(key, value)) && o < |f|
    requires var r := Choose(f, o, KvLen(key, value), false, cap);
             if r.None? then err == SAVED_FULL && g == f
             else if err == NO_ERR then Overwritten(f, g, r.value, key, value)
             else err == KV_NAME_ERR && g == f
    ensures SetDone(f0, f, g, start, o, cap, key, value, err)
  {
    hide Choose; hide MadeRoom; hide Overwritten; hide KvLen;
  }

  lemma OverwritesOld(f: Flash, g: Flash, t: nat, key: Key, value: Value, a: Addr)
    requires t < |f| && In(f, a) && g == Dropped(Placed(PreDeleted(f, a), t, NewRec(key, value)), a)
    ensures Overwrites(f, g, t, key, value, Some(a))
  {
  }

  lemma OverwritesNone(f: Flash, g: Flash, t: nat, key: Key, value: Value)
    requires t < |f| && g == Placed(f, t, NewRec(key, value))
    ensures Overwrites(f, g, t, key, value, None)
  {
    hide Placed; hide NewRec;
  }

  lemma OverwrittenIs(f: Flash, g: Flash, m: map<Key, Value>, t: nat, key: Key, value: Value, oldKv: Option<Addr>)
    requires Reads(f, m) && Overwrites(f, g, t, key, value, oldKv)
    requires if oldKv.Some? then Live(f, oldKv.value) && At(f, oldKv.value).key == key else !HasLive(f, key)
    ensures Overwritten(f, g, t, key, value)
  {
    hide Overwrites;
  }

  /** The live record of a key is the only one. */
  lemma OnlyOne(f: Flash, m: map<Key, Value>, key: Key, kv: Option<Addr>)
    requires Reads(f, m)
    requires if kv.Some? then Live(f, kv.value) && At(f, kv.value).key == key else !HasLive(f, key)
    ensures forall a :: Live(f, a) && At(f, a).key == key ==> kv == Some(a)
    ensures kv.Some? ==>
              && In(f, kv.value) && In(Dropped(f, kv.value), kv.value)
              && At(Dropped(f, kv.value), kv.value).status == DELETED
  {
  }

  lemma Granted(f: Flash, oldest: nat, size: nat, cap: nat, t: nat)
    requires oldest < |f| && Choose(f, oldest, size, false, cap) == Some(t)
    ensures t < |f| && f[t].store in {STORE_EMPTY, STORE_USING} && Fits(f[t], size, false, cap)
    ensures f[t].store == STORE_EMPTY ==> EmptyCount(f) > GC_EMPTY_THRESHOLD
  {
    hide EmptyCount; hide Choose;
    ChooseExact(f, oldest, size, false, cap);
  }

  lemma DropPlan(f: Flash, cap: nat, m: map<Key, Value>, key: Key)
    requires Recoverable(f, cap, Exactly(m).(tidy := true)) && EmptyCount(f) > 0
    ensures Recoverable(f, cap, Changing(m, m - {key}).(tidy := true)) && !Owed(Changing(m, m - {key}).(tidy := true), key)
  {
    hide FlashOk; hide PendingDirty; hide EmptyCount; hide Keeps;
    OtherTidy(f, Exactly(m).(tidy := true), Exactly(m));
    PromiseOpens(f, m, m - {key});
    OtherTidy(f, Changing(m, m - {key}), Changing(m, m - {key}).(tidy := true));
  }

  lemma QuietDropped(f: Flash, a: Addr, steady: bool)
    requires Quiet(f, steady) && Live(f, a)
    ensures Quiet(Dropped(f, a), steady) && Settled(f)
  {
    hide Settled; hide CalmBy;
    QuietStatus(f, a, DELETED, steady);
  }

  lemma DropDone(f: Flash, cap: nat, m: map<Key, Value>, key: Key)
    requires Recoverable(f, cap, Changing(m, m - {key}).(tidy := true)) && NoPending(f) && !HasLive(f, key)
    ensures Reads(f, m - {key}) && EmptyCount(f) > 0
  {
    hide FlashOk; hide PendingDirty; hide EmptyCount; hide Keeps; hide Reads;
    OtherTidy(f, Changing(m, m - {key}).(tidy := true), Changing(m, m - {key}));
    DeleteSettles(f, m, key);
  }

  lemma DropCached(f: Flash, g: Flash, c: Table, c': Table, a: Addr, key: Key)
    requires CacheOk(f, c, {}) && Live(f, a) && At(f, a).key == key && Removed(c, c', NameCrc(key))
    requires forall b :: Live(f, b) && b != a ==> Live(g, b) && At(g, b) == At(f, b)
    ensures CacheOk(g, c', {})
  {
    hide NameCrc; hide Removed;
    CacheWeaker(f, c, {NameCrc(key)});
    CacheFollows(f, g, c, {NameCrc(key)});
    CacheRemoved(g, c, c', {NameCrc(key)}, NameCrc(key));
    assert {NameCrc(key)} - {NameCrc(key)} == {};
  }

  lemma BoundTo(m: map<Key, Value>, r: Rec)
    requires Bound(m, r)
    ensures r.key in m && m[r.key] == r.value
  {
  }
}
