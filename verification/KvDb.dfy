/**
 The key-value database: `fdb_kvdb.c` as a class whose methods update the database object and
 program the flash one step at a time.  `hist` remembers the flash content after every single program
 and erase; a power cut leaves one of these contents behind.
 */
module KvDb {
  import opened Wrappers
  import opened FdbDef
  import opened KvFlash
  import opened KvDevice
  import opened KvAlloc
  import opened KvBoot
  import opened KvCache
  import opened KvChange
  import opened KvCollect
  import opened KvEffects
  import opened KvGuard
  import opened KvRecovery
  import opened KvSectorCache
  import opened KvSpace
  import opened WalkOrder

  class KvDatabase {
    const cap: nat              // bytes of a sector behind its header
    const kvCache: array<CacheNode>
    const sectorCache: array<Option<SecInfo>>
    var flash: Flash
    var hist: seq<Flash>        // every content of the flash since power on
    var oldest: nat             // index of the oldest sector
    var gcRequest: bool
    var inRecovery: bool
    var lastIsCompleteDel: bool
    ghost const names: set<Key> // the names the application uses
    ghost const steady: bool    // why the free space stays known: see `CalmBy`
    ghost var marked: set<nat>  // the sector that is being collected
    ghost var model: map<Key, Value>

    /** Power on over whatever the flash holds.  The database object is all zeros, so the sector table is, too. */
    constructor PowerOn(cap: nat, tableSize: nat, sectorTableSize: nat, content: Flash, ghost names: set<Key>)
      requires 2 <= |content| && FlashOk(content, cap) && KV_HDR + REMAIN_THRESHOLD < cap
      requires 0 < tableSize <= 0xFFFF && 0 < sectorTableSize
      ensures Base() && Tables() && Zeroed(sectorCache[..]) && fresh(kvCache) && fresh(sectorCache)
      ensures kvCache.Length == tableSize && sectorCache.Length == sectorTableSize
      ensures this.cap == cap && flash == content && hist == [content] && this.names == names
      ensures steady == Steady(content) && marked == {}
      ensures !lastIsCompleteDel && !gcRequest && !inRecovery
    {
      this.cap := cap;
      this.names := names;
      kvCache := new CacheNode[tableSize](_ => CacheNode(Crc.ZERO, 0, None));
      sectorCache := new Option<SecInfo>[sectorTableSize](_ => Some(ZEROED));
      flash, oldest := content, 0;
      gcRequest, inRecovery, lastIsCompleteDel := false, false, false;
      hist, model, marked, steady := [content], map[], {}, Steady(content);
      PoweredOn(content);
    }

    ghost predicate Base()
      reads this`flash, this`hist, this`oldest
    {
      && 2 <= |flash| && oldest < |flash|
      && KV_HDR + REMAIN_THRESHOLD < cap && FlashOk(flash, cap)
      && hist != [] && hist[|hist| - 1] == flash && NorRun(hist) && KeptRun(hist, steady)
    }

    /** The tables in RAM before anything has been read into them. */
    ghost predicate Tables()
      reads kvCache
    {
      0 < kvCache.Length <= 0xFFFF && 0 < sectorCache.Length && Aged(kvCache[..])
    }

    /** The tables in RAM: the sector table agrees with the flash. */
    ghost predicate CacheBase()
      reads this`flash, this`marked, this`gcRequest, kvCache, sectorCache
    {
      && Tables() && Coherent(flash, cap, sectorCache[..], marked) && (marked != {} ==> gcRequest)
    }

    // -------------------------------------------------------------- the device

    /** One program or erase.  It must be one that NOR flash can do, a power cut right after it must be recoverable,
        and what every step keeps must be kept. */
    method Program(next: Flash, ghost p: Promise)
      requires Base() && NorStep(flash, next) && Recoverable(next, cap, p) && Guarded(flash, next, steady)
      modifies this`flash, this`hist
      ensures Base() && flash == next && hist == old(hist) + [next]
      ensures Ran(old(hist), hist, cap, p)
    {
      hide Guarded; hide KeptRun;
      KeptRunOn(hist, next, steady);
      flash := next;
      hist := hist + [next];
    }

    /** `read_sector_info`, through the sector table. */
    method ReadSector(s: nat, traversal: bool) returns (info: Option<SecInfo>)
      requires Base() && CacheBase() && s < |flash|
      modifies sectorCache
      ensures CacheBase()
      ensures info.Some? <==> flash[s].ok
      ensures info.Some? ==>
                && info.value.sec == s && info.value.store == flash[s].store
                && DirtyAgrees(info.value.dirty, flash[s].dirty, s in marked)
                && (traversal ==> info.value.remain == TrueRemain(flash[s], cap))
      ensures !traversal && Untraversed(old(sectorCache[..])) ==> Untraversed(sectorCache[..])
    {
      hide Coherent; hide Untraversed; hide FlashOk; hide NorRun; hide KeptRun; hide TrueRemain; hide TrueEmpty;
      hide Zeroed;
      var sector := ReadSectorInfo(sectorCache, flash, cap, s, traversal, marked);
      info := if sector.ok then Some(sector) else None;
    }

    // -------------------------------------------------------------- deleting

    method DelKv(a: Addr, complete: bool, ghost other: Addr, ghost p: Promise)
      requires Base() && CacheBase() && Recoverable(flash, cap, p)
      requires !complete ==> Live(flash, a) && (p.tidy ==> flash[a.sec].dirty in {DIRTY_TRUE, DIRTY_GC})
      requires complete ==> Kept(flash, a)
      requires complete ==> (Kept(flash, other) && other != a && At(flash, other).key == At(flash, a).key)
                            || !Owed(p, At(flash, a).key)
      modifies this`flash, this`hist, this`lastIsCompleteDel, kvCache, sectorCache
      ensures Base() && CacheBase() && Recoverable(flash, cap, p) && Ran(old(hist), hist, cap, p)
      ensures flash == if complete then Dropped(old(flash), a) else PreDeleted(old(flash), a)
      ensures lastIsCompleteDel == !complete
      ensures complete && !old(lastIsCompleteDel) ==> Removed(old(kvCache[..]), kvCache[..], NameCrc(At(old(flash), a).key))
      ensures !(complete && !old(lastIsCompleteDel)) ==> kvCache[..] == old(kvCache[..])
      ensures !complete ==> !HasLive(flash, At(old(flash), a).key)
      ensures In(flash, a) && flash[a.sec].dirty != DIRTY_FALSE
      ensures |old(hist)| < |hist| <= |old(hist)| + 2
      ensures var marked := WithStatus(old(flash), a, if complete then DELETED else PRE_DELETE);
              hist == old(hist) + [marked] + if flash == marked then [] else [flash]
    {
      hide NameCrc;
      hide FlashOk;
      hide NorRun;
      hide KeptRun;
      hide Keeps;
      hide Ran;
      hide Coherent;
      hide PendingDirty;
      ghost var h0 := hist;
      WriteKvStatus(a, if complete then DELETED else PRE_DELETE, other, p);
      if !complete {
        lastIsCompleteDel := true;
      } else {
        if !lastIsCompleteDel {
          UpdateKvCache(kvCache, NameCrc(At(flash, a).key), None);
        }
        lastIsCompleteDel := false;
      }
      ghost var f1, h1 := flash, hist;
      MarkSectorDirty(a.sec, p);
      RanOn(h0, h1, hist, cap, p);
      if !complete {
        NoLiveAfter(f1, flash, At(f1, a).key);
      }
    }

    method WriteKvStatus(a: Addr, st: KvStatus, ghost other: Addr, ghost p: Promise)
      requires Base() && CacheBase() && Recoverable(flash, cap, p) && st in {PRE_DELETE, DELETED}
      requires st == PRE_DELETE ==> Live(flash, a) && (p.tidy ==> flash[a.sec].dirty in {DIRTY_TRUE, DIRTY_GC})
      requires st == DELETED ==>
                 && Kept(flash, a)
                 && ((Kept(flash, other) && other != a && At(flash, other).key == At(flash, a).key)
                     || !Owed(p, At(flash, a).key))
      modifies this`flash, this`hist
      ensures Base() && CacheBase() && Recoverable(flash, cap, p) && Ran(old(hist), hist, cap, p)
      ensures flash == WithStatus(old(flash), a, st) && hist == old(hist) + [flash]
      ensures In(flash, a) && At(flash, a).key == At(old(flash), a).key && flash[a.sec].ok
      ensures st == PRE_DELETE ==> !HasLive(flash, At(old(flash), a).key)
    {
      hide *;
      BaseHas();
      CacheBaseHas();
      StatusStep(flash, cap, a, st, other, p);
      StatusCoherent(flash, cap, sectorCache[..], marked, a, st);
      GuardStatus(flash, a, st, steady);
      Program(WithStatus(flash, a, st), p);
      CacheBaseIs();
    }

    method MarkSectorDirty(s: nat, ghost p: Promise)
      requires Base() && CacheBase() && Recoverable(flash, cap, p) && s < |flash| && flash[s].ok && flash[s].recs != []
      modifies this`flash, this`hist, sectorCache
      ensures Base() && CacheBase() && Recoverable(flash, cap, p) && Ran(old(hist), hist, cap, p)
      ensures flash == Marked(old(flash), s)
      ensures hist == if flash == old(flash) then old(hist) else old(hist) + [flash]
    {
      hide *;
      BaseHas();
      CacheBaseHas();
      RanNot(hist, cap, p);
      MarkedIsDirty(flash, s);
      if flash[s].dirty == DIRTY_FALSE {
        var next := flash[s := flash[s].(dirty := DIRTY_TRUE)];
        DirtyStep(flash, cap, s, DIRTY_TRUE, p);
        MarkedCoherent(flash, cap, sectorCache[..], marked, s);
        CoherentOnce(flash, cap, sectorCache[..], marked);
        GuardDirty(flash, s, DIRTY_TRUE, steady);
        Program(next, p);
        UpdateDirty(sectorCache, s);
        CacheBaseIs();
      }
    }

    // -------------------------------------------------------------- allocating

    method Statistics() returns (emptySectors: nat, usingSectors: nat)
      requires Base() && CacheBase()
      modifies sectorCache
      ensures CacheBase() && emptySectors == EmptyCount(flash)
      ensures usingSectors == 0 <==> forall s: nat :: s < |flash| && flash[s].ok ==> flash[s].store != STORE_USING
    {
      hide EmptyCount;
      hide Walked;
      hide Coherent;
      hide FlashOk;
      hide NorRun;
      hide KeptRun;
      emptySectors, usingSectors := 0, 0;
      var n := |flash|;
      WalkedAll(flash, oldest);
      for j := 0 to n
        invariant CacheBase()
        invariant emptySectors == EmptyCount(Walked(flash, oldest, j))
        invariant usingSectors == 0 <==>
                  forall s: nat :: s < n && StepOf(oldest, s, n) < j && flash[s].ok ==> flash[s].store != STORE_USING
      {
        var s := SectorAt(oldest, j, n);
        WalkedNext(flash, oldest, j);
        var sector := ReadSector(s, false);
        if sector.Some? && sector.value.store == STORE_EMPTY {
          emptySectors := emptySectors + 1;
        } else if sector.Some? && sector.value.store == STORE_USING {
          usingSectors := usingSectors + 1;
        }
        assert StepOf(oldest, s, n) == j;
        assert forall t: nat :: t < n && StepOf(oldest, t, n) == j ==> t == s;
      }
    }

    method FindRoom(store: Store, size: nat) returns (r: Option<nat>)
      requires Base() && CacheBase() && store in {STORE_USING, STORE_EMPTY}
      modifies sectorCache
      ensures CacheBase() && r == FirstFit(flash, oldest, store, size, gcRequest, cap, 0)
      ensures r.Some? ==>
                r.value < |flash| && flash[r.value].store == store && FirstOfKind(flash, oldest, size, gcRequest, cap, r.value)
      ensures r.None? ==>
                forall s: nat :: s < |flash| && flash[s].store == store ==> !Takeable(flash[s], size, gcRequest, cap)
    {
      hide Coherent;
      hide NorRun;
      hide KeptRun;
      hide Free;
      var n := |flash|;
      for j := 0 to n
        invariant CacheBase()
        invariant FirstFit(flash, oldest, store, size, gcRequest, cap, 0)
               == FirstFit(flash, oldest, store, size, gcRequest, cap, j)
      {
        var s := SectorAt(oldest, j, n);
        SectorFacts(flash, cap, s);
        var sector := ReadSector(s, false);
        if sector.Some? && sector.value.store == store {
          sector := ReadSector(s, true);
          if sector.value.remain > size + REMAIN_THRESHOLD
             && (sector.value.dirty == DIRTY_FALSE || (sector.value.dirty == DIRTY_TRUE && !gcRequest))
          {
            FoundFirst(flash, oldest, store, size, gcRequest, cap);
            return Some(s);
          }
        }
      }
      FoundFirst(flash, oldest, store, size, gcRequest, cap);
      return None;
    }

    method AllocKv(size: nat) returns (r: Option<nat>)
      requires Base() && CacheBase()
      modifies this`gcRequest, sectorCache
      ensures CacheBase() && r == Choose(flash, oldest, size, old(gcRequest), cap)
      ensures forall s: nat :: r == Some(s) <==> IsChoice(flash, oldest, size, old(gcRequest), cap, s)
      ensures r.Some? ==> gcRequest == old(gcRequest)
      ensures r.None? ==> gcRequest == (old(gcRequest) || 0 < EmptyCount(flash) <= GC_EMPTY_THRESHOLD)
    {
      hide Coherent;
      hide NorRun;
      hide KeptRun;
      hide FlashOk;
      hide EmptyCount;
      hide IsChoice;
      hide FirstOfKind;
      hide Takeable;
      ChoiceExact(flash, oldest, size, gcRequest, cap);
      var emptySectors, usingSectors := Statistics();
      r := None;
      if usingSectors > 0 {
        r := FindRoom(STORE_USING, size);
      }
      assert usingSectors == 0 ==> FirstFit(flash, oldest, STORE_USING, size, gcRequest, cap, 0).None?;
      if emptySectors > 0 && r.None? {
        if emptySectors > GC_EMPTY_THRESHOLD || gcRequest {
          r := FindRoom(STORE_EMPTY, size);
        } else {
          gcRequest := true;
        }
      }
    }

    // -------------------------------------------------------------- finding

    /** The scan.  It meets every record, so it finds the key exactly if the key has a live record. */
    method FindKvNoCache(key: Key) returns (r: Option<Addr>)
      requires Base() && CacheBase() && Quiet(flash, steady)
      modifies sectorCache
      ensures CacheBase()
      ensures r.Some? ==> Live(flash, r.value) && At(flash, r.value).key == key
      ensures r.None? ==> !HasLive(flash, key)
    {
      hide Coherent;
      hide NorRun;
      hide KeptRun;
      hide Quiet;
      hide Free;
      hide Apart;
      var n := |flash|;
      for j := 0 to n
        invariant CacheBase()
        invariant forall a :: Live(flash, a) && StepOf(oldest, a.sec, n) < j ==> At(flash, a).key != key
      {
        var s := SectorAt(oldest, j, n);
        var sector := ReadSector(s, false);
        if sector.Some? && sector.value.store in {STORE_USING, STORE_FULL} {
          for i := 0 to |flash[s].recs|
            invariant forall a :: Live(flash, a) && a.sec == s && a.idx < i ==> At(flash, a).key != key
          {
            var rec := flash[s].recs[i];
            if |rec.key| == |key| && rec.crcOk && rec.status == WRITE && ReadName(rec.key) == key {
              return Some(Addr(s, i));
            }
            assert SectorOk(flash[s], cap);
            assert forall a :: Live(flash, a) && a.sec == s && a.idx == i ==> At(flash, a) == rec && RecOk(rec, i == 0);
          }
        }
        assert SectorOk(flash[s], cap);
        assert forall a :: In(flash, a) && StepOf(oldest, a.sec, n) == j ==> a.sec == s;
      }
      return None;
    }

    ghost predicate LiveNames()
      reads this`flash
    {
      forall a :: Live(flash, a) ==> At(flash, a).key in names
    }

    method FindKv(key: Key) returns (r: Option<Addr>)
      requires Base() && CacheBase() && Quiet(flash, steady) && CacheOk(flash, kvCache[..], {})
      requires GoodNames(names) && LiveNames() && key in names
      modifies kvCache, sectorCache
      ensures CacheBase() && CacheOk(flash, kvCache[..], {})
      ensures r.Some? ==> Live(flash, r.value) && At(flash, r.value).key == key
      ensures r.None? ==> !HasLive(flash, key)
      ensures LookedUp(flash, old(kvCache[..]), kvCache[..], key, r)
    {
      hide NameCrc;
      hide Coherent;
      hide NorRun;
      hide KeptRun;
      hide Quiet;
      ghost var c := kvCache[..];
      r := GetKvFromCache(kvCache, flash, key);
      if r.Some? {
        return;
      }
      r := FindKvNoCache(key);
      if r.Some? {
        ghost var c1 := kvCache[..];
        UpdateKvCache(kvCache, NameCrc(key), r);
        ghost var t: nat :| Mapped(c1, kvCache[..], NameCrc(key), r.value, t);
        CacheMapped(flash, c1, kvCache[..], {}, NameCrc(key), r.value, t);
      }
    }

    // -------------------------------------------------------------- writing a record

    /** The allocator has left more than the threshold, so a sector in use never becomes full. */
    method UpdateSecStatus(t: nat, len: nat, ghost p: Promise) returns (isFull: bool)
      requires Base() && CacheBase() && Recoverable(flash, cap, p)
      requires t < |flash| && flash[t].store in {STORE_EMPTY, STORE_USING} && Fits(flash[t], len, gcRequest, cap)
      requires EmptyCount(flash) - EmptyBit(flash[t]) >= p.reserve
      requires flash[t].store == STORE_EMPTY ==> EmptyCount(flash) > GC_EMPTY_THRESHOLD || !NoGc(flash)
      modifies this`flash, this`hist, sectorCache
      ensures Base() && CacheBase() && Recoverable(flash, cap, p) && Ran(old(hist), hist, cap, p)
      ensures flash == Opened(old(flash), t) && !isFull
      ensures hist == if old(flash)[t].store == STORE_EMPTY then old(hist) + [flash] else old(hist)
    {
      hide *;
      BaseHas();
      CacheBaseHas();
      RanNot(hist, cap, p);
      isFull := false;
      if flash[t].store == STORE_EMPTY {
        var next := Opened(flash, t);
        FitsOk(flash[t], len, gcRequest, cap);
        OpenStep(flash, cap, t, p);
        GuardOpen(flash, t, steady);
        OpenedCoherent(flash, cap, sectorCache[..], marked, t);
        CoherentOnce(flash, cap, sectorCache[..], marked);
        Program(next, p);
        UpdateStore(sectorCache, t, STORE_USING);
        CacheBaseIs();
      } else {
        var remain := cap - Free(flash[t].recs);
        FitsOk(flash[t], len, gcRequest, cap);
        if remain < REMAIN_THRESHOLD || remain - len < REMAIN_THRESHOLD {
          assert false;
        }
        OpenAlready(flash, t);
      }
    }

    /** One more program of the record `r` that is being written at the end of sector `t`. */
    method Fill(t: nat, ghost f0: Flash, ghost r: Rec, q: Rec, ghost p: Promise)
      requires Base() && Recoverable(flash, cap, p)
      requires Roomy(f0, cap, t, q.len) && flash == WithNew(f0, t, r)
      requires r.status == PRE_WRITE && q.status == PRE_WRITE && RecOk(q, f0[t].recs == []) && RecClears(r, q) && q.hdr
      requires (q.crcOk ==> Takes(f0[t].recs, q)) && (steady ==> Steady(f0))
      modifies this`flash, this`hist
      ensures Base() && Recoverable(flash, cap, p) && Ran(old(hist), hist, cap, p)
      ensures flash == WithNew(f0, t, q) && hist == old(hist) + [flash]
    {
      hide *;
      FillStep(flash, f0, cap, t, r, q, p);
      GuardFill(f0, t, r, q, steady);
      var a := Addr(t, |flash[t].recs| - 1);
      Program(WithRec(flash, a, q), p);
    }

    method Commit(t: nat, ghost f0: Flash, ghost r: Rec, ghost p: Promise)
      requires Base() && Recoverable(flash, cap, p)
      requires t < |f0| && flash == WithNew(f0, t, r) && r.status == PRE_WRITE && r.crcOk
      requires Says(p, r) && !HasLive(f0, r.key)
      modifies this`flash, this`hist
      ensures Base() && Recoverable(flash, cap, p) && Ran(old(hist), hist, cap, p)
      ensures flash == WithNew(f0, t, r.(status := WRITE)) && hist == old(hist) + [flash]
    {
      hide PendingDirty;
      hide FlashOk;
      var a := Addr(t, |flash[t].recs| - 1);
      Extended(f0, t, r);
      NoLiveAfter(f0, flash, r.key);
      StepStatus(flash, cap, a, WRITE);
      KeepsCommit(flash, a, p);
      CountRec(flash, a, At(flash, a).(status := WRITE));
      Refilled(f0, t, r, r.(status := WRITE));
      StatusTidy(flash, a, WRITE);
      GuardStatus(flash, a, WRITE, steady);
      hide Guarded;
      Program(WithStatus(flash, a, WRITE), p);
    }

    /** The PRE_WRITE status byte of a new record.  The free offset it goes to lies behind every complete record. */
    method Begin(t: nat, len: nat, ghost p: Promise)
      requires Base() && Recoverable(flash, cap, p)
      requires Roomy(flash, cap, t, len) && KV_HDR <= len && (steady ==> Steady(flash))
      modifies this`flash, this`hist
      ensures Base() && Recoverable(flash, cap, p) && Ran(old(hist), hist, cap, p)
      ensures flash == WithNew(old(flash), t, Bare(old(flash)[t])) && hist == old(hist) + [flash]
      ensures Behind(old(flash)[t].recs)
    {
      hide PendingDirty;
      hide FlashOk;
      hide Free;
      LandsBehind(flash, cap, t);
      hide Behind;
      var r := Bare(flash[t]);
      StepNew(flash, cap, t, r);
      KeepsAppend(flash, t, r, p);
      CountNew(flash, t, r);
      AppendTidy(flash, t, r);
      GuardBegin(flash, t, steady);
      hide Guarded; hide Steady;
      Program(WithNew(flash, t, r), p);
    }

    /** `move_kv` copies header and payload in pieces of 32 bytes, from the magic word on. */
    method CopyRecord(t: nat, r: Rec, ghost p: Promise)
      requires Base() && Recoverable(flash, cap, p)
      requires Roomy(flash, cap, t, r.len) && RecOk(r, false) && r.crcOk && Takes(flash[t].recs, r)
      requires Says(p, r) && !HasLive(flash, r.key) && (steady ==> Steady(flash))
      modifies this`flash, this`hist
      ensures Base() && Recoverable(flash, cap, p) && Ran(old(hist), hist, cap, p)
      ensures flash == WithNew(old(flash), t, r.(status := WRITE))
      // one program for each piece of 32 bytes, between the two of the status
      ensures |hist| == |old(hist)| + Pieces(r.len) + 2
      ensures forall i :: 0 <= i <= Pieces(r.len) ==>
                hist[|old(hist)| + i] == WithNew(old(flash), t, Copied(r, PieceEnd(r.len, i), old(flash)[t]))
    {
      hide *;
      ghost var f0, h0 := flash, hist;
      CopyFacts(f0, cap, t, r, p);
      Begin(t, r.len, p);
      var whole := r.(status := PRE_WRITE);
      var kvLen := r.len - FlashScan.MAGIC_OFFSET;
      var len := 0;
      ghost var k := 0;
      PieceNext(r.len, 0);
      while len < kvLen
        invariant 0 <= len <= kvLen
        invariant Base() && Recoverable(flash, cap, p) && Ran(h0, hist, cap, p)
        invariant flash == WithNew(f0, t, Copied(r, len, f0[t]))
        invariant k <= Pieces(r.len) && len == PieceEnd(r.len, k) && |hist| == |h0| + k + 1
        invariant forall i :: 0 <= i <= k ==> hist[|h0| + i] == WithNew(f0, t, Copied(r, PieceEnd(r.len, i), f0[t]))
      {
        var size := if len + 32 < kvLen then 32 else kvLen - len;
        CopyStep(r, len, size, f0[t]);
        ghost var h1 := hist;
        Fill(t, f0, Copied(r, len, f0[t]), if len + size < kvLen then Partial(r, len + size) else whole, p);
        RanOn(h0, h1, hist, cap, p);
        PieceNext(r.len, k);
        len, k := len + size, k + 1;
      }
      PieceNext(r.len, k);
      CopyDone(r, kvLen, f0[t]);
      ghost var h1 := hist;
      Commit(t, f0, whole, p);
      RanOn(h0, h1, hist, cap, p);
    }

    // -------------------------------------------------------------- moving

    method MoveKv(a: Addr, kv: Rec, ghost p: Promise) returns (ok: bool)
      requires Base() && CacheBase() && Quiet(flash, steady) && Recoverable(flash, cap, p)
      requires gcRequest ==> !NoGc(flash)
      requires Kept(flash, a) && At(flash, a) == kv && (kv.status == PRE_DELETE ==> inRecovery)
      requires p.reserve == 0 || (p.reserve == 1 && !gcRequest)
      requires p.tidy && kv.status == WRITE ==> flash[a.sec].dirty in {DIRTY_TRUE, DIRTY_GC}
      modifies this`flash, this`hist, this`lastIsCompleteDel, this`gcRequest, kvCache, sectorCache
      ensures Base() && CacheBase() && Quiet(flash, steady) && Recoverable(flash, cap, p) && Ran(old(hist), hist, cap, p)
      ensures MoveEffect(old(flash), flash, a, oldest, old(gcRequest), cap, inRecovery, ok)
      ensures In(flash, a) && At(flash, a).status == if ok then DELETED else PRE_DELETE
      ensures ok ==> gcRequest == old(gcRequest) && !lastIsCompleteDel
      ensures !ok ==> gcRequest == (old(gcRequest) || 0 < EmptyCount(flash) <= GC_EMPTY_THRESHOLD)
      ensures !ok && kv.status == PRE_DELETE ==> kvCache[..] == old(kvCache[..]) && lastIsCompleteDel == old(lastIsCompleteDel)
      ensures ok && CacheOk(old(flash), old(kvCache[..]), {}) ==> CacheOk(flash, kvCache[..], {})
    {
      hide NameCrc;
      hide FlashOk;
      hide NorRun;
      hide KeptRun;
      hide Keeps;
      hide Ran;
      hide Quiet;
      hide Choose;
      hide EmptyCount;
      hide Coherent;
      hide PendingDirty;
      hide MoveEffect;
      hide Withdrawn; hide PreDeleted; hide Dropped; hide Placed;
      ghost var f0, c0, h0 := flash, kvCache[..], hist;
      RanNot(h0, cap, p);
      WithdrawnIs(f0, a);
      if kv.status == WRITE {
        Withdraw(a, p);
        StaysMarked(f0, a);
      }
      hide NoGc;
      ghost var f1, c1, h1 := flash, kvCache[..], hist;
      var t := AllocKv(kv.len);
      if t.None? {
        MoveRefused(f0, a, oldest, old(gcRequest), cap, inRecovery);
        return false;
      }
      ChooseInRange(f1, oldest, kv.len, gcRequest, cap);
      MoveTo(t.value, a, kv, p);
      MoveGranted(f0, flash, a, oldest, old(gcRequest), cap, inRecovery, t.value);
      RanOn(h0, h1, hist, cap, p);
      return true;
    }

    /** The part of `move_kv` after the allocation. */
    method MoveTo(t: nat, a: Addr, kv: Rec, ghost p: Promise)
      requires Base() && CacheBase() && Quiet(flash, steady) && Recoverable(flash, cap, p)
      requires Pend(flash, a) && At(flash, a) == kv.(status := PRE_DELETE)
      requires (kv.status == WRITE && !HasLive(flash, kv.key)) || (kv.status == PRE_DELETE && inRecovery)
      requires Choose(flash, oldest, kv.len, gcRequest, cap) == Some(t)
      requires (p.reserve == 0 || (p.reserve == 1 && !gcRequest)) && (gcRequest ==> !NoGc(flash))
      modifies this`flash, this`hist, this`lastIsCompleteDel, kvCache, sectorCache
      ensures Base() && CacheBase() && Quiet(flash, steady) && Recoverable(flash, cap, p) && Ran(old(hist), hist, cap, p)
      ensures flash == if inRecovery && kv.status == PRE_DELETE && HasLive(old(flash), kv.key) then Dropped(old(flash), a)
                       else if t < |old(flash)| then Dropped(Placed(old(flash), t, kv.(status := WRITE)), a)
                       else old(flash)
      ensures t < |flash| && !lastIsCompleteDel
      ensures (kv.status == PRE_DELETE && CacheOk(old(flash), old(kvCache[..]), {}))
              || (kv.status == WRITE && CacheOk(old(flash), old(kvCache[..]), {NameCrc(kv.key)})) ==>
                CacheOk(flash, kvCache[..], {})
    {
      hide NameCrc;
      hide FlashOk;
      hide NorRun;
      hide KeptRun;
      hide Keeps;
      hide Ran;
      hide Quiet;
      hide EmptyCount;
      hide CacheOk;
      hide Coherent;
      hide PendingDirty;
      ghost var h0 := hist;
      ChooseInRange(flash, oldest, kv.len, gcRequest, cap);
      if inRecovery && kv.status == PRE_DELETE {
        var found := FindKvNoCache(kv.key);
        if found.Some? {
          FinishMove(a, found.value, p);
          return;
        }
      }
      if CacheOk(flash, kvCache[..], {}) {
        CacheWeaker(flash, kvCache[..], {NameCrc(kv.key)});
      }
      var kvAddr := PlaceCopy(t, a, kv, p);
      ghost var h1 := hist;
      FinishMove(a, kvAddr, p);
      RanOn(h0, h1, hist, cap, p);
    }

    method Withdraw(a: Addr, ghost p: Promise)
      requires Base() && CacheBase() && Quiet(flash, steady) && Recoverable(flash, cap, p)
      requires Live(flash, a) && (p.tidy ==> flash[a.sec].dirty in {DIRTY_TRUE, DIRTY_GC})
      modifies this`flash, this`hist, this`lastIsCompleteDel, kvCache, sectorCache
      ensures Base() && CacheBase() && Quiet(flash, steady) && Recoverable(flash, cap, p) && Ran(old(hist), hist, cap, p)
      ensures flash == PreDeleted(old(flash), a) && !HasLive(flash, At(old(flash), a).key)
      ensures Pend(flash, a) && At(flash, a) == At(old(flash), a).(status := PRE_DELETE)
      ensures lastIsCompleteDel && kvCache[..] == old(kvCache[..])
      ensures CacheOk(old(flash), old(kvCache[..]), {}) ==>
                CacheOk(flash, kvCache[..], {NameCrc(At(old(flash), a).key)})
      ensures |old(hist)| < |hist| <= |old(hist)| + 2 && hist[|old(hist)|] == WithStatus(old(flash), a, PRE_DELETE)
    {
      hide NameCrc;
      hide Coherent;
      hide PendingDirty;
      hide Quiet;
      hide FlashOk;
      hide NorRun;
      hide KeptRun;
      hide Keeps;
      hide Ran;
      ghost var f0, c0 := flash, kvCache[..];
      QuietStatus(f0, a, PRE_DELETE, steady);
      DelKv(a, false, a, p);
      StatusFrame(f0, a, PRE_DELETE, flash);
      if CacheOk(f0, c0, {}) {
        CacheFollows(f0, flash, c0, {NameCrc(At(f0, a).key)});
      }
    }

    method PlaceCopy(t: nat, ghost a: Addr, kv: Rec, ghost p: Promise) returns (kvAddr: Addr)
      requires Base() && CacheBase() && Quiet(flash, steady) && Recoverable(flash, cap, p)
      requires Pend(flash, a) && At(flash, a) == kv.(status := PRE_DELETE) && kv.status in {WRITE, PRE_DELETE}
      requires !HasLive(flash, kv.key)
      requires Choose(flash, oldest, kv.len, gcRequest, cap) == Some(t)
      requires (p.reserve == 0 || (p.reserve == 1 && !gcRequest)) && (gcRequest ==> !NoGc(flash))
      modifies this`flash, this`hist, kvCache, sectorCache
      ensures Base() && CacheBase() && Quiet(flash, steady) && Recoverable(flash, cap, p) && Ran(old(hist), hist, cap, p)
      ensures t < |old(flash)| && flash == Placed(old(flash), t, kv.(status := WRITE))
      ensures Live(flash, kvAddr) && At(flash, kvAddr).key == kv.key
      ensures Pend(flash, a) && At(flash, a) == At(old(flash), a)
      ensures CacheOk(old(flash), old(kvCache[..]), {NameCrc(kv.key)}) ==> CacheOk(flash, kvCache[..], {})
    {
      hide *;
      ghost var f1, c0, h0, crc, r := flash, kvCache[..], hist, NameCrc(kv.key), kv.(status := WRITE);
      BaseHas();
      CopyPlan(f1, oldest, cap, gcRequest, t, a, kv, p, steady);
      var _ := UpdateSecStatus(t, kv.len, p);
      ghost var h1, f2 := hist, flash;
      CacheBaseHas();
      kvAddr := Addr(t, |flash[t].recs|);
      var kvStart := SECTOR_HDR + Free(flash[t].recs);
      CopyRecord(t, kv, p);
      RanOn(h0, h1, hist, cap, p);
      AddedCache(f2, r, t, kvStart, kv.len);
      CopyPlaced(f1, flash, cap, t, a, kv, p, steady);
      CacheBaseHas();
      UpdateKvCache(kvCache, NameCrc(kv.key), Some(kvAddr));
      CacheBaseIs();
      ghost var slot: nat :| Mapped(c0, kvCache[..], crc, kvAddr, slot);
      CopyCached(f1, flash, c0, kvCache[..], kv.key, kvAddr, slot);
    }

    /** `update_sector_empty_addr_cache` after a record has been written at the free address. */
    method AddedCache(ghost f: Flash, ghost r: Rec, t: nat, kvStart: nat, len: nat)
      requires Coherent(f, cap, sectorCache[..], marked) && Tables()
      requires t < |f| && flash == WithNew(f, t, r) && r.hdr && RecOk(r, f[t].recs == []) && Takes(f[t].recs, r)
      requires kvStart == TrueEmpty(f[t]) && len == r.len
      requires Tables() && (marked != {} ==> gcRequest)
      modifies sectorCache
      ensures CacheBase() && kvCache[..] == old(kvCache[..])
    {
      hide *;
      AppendedCoherent(f, cap, sectorCache[..], marked, t, r);
      CoherentOnce(f, cap, sectorCache[..], marked);
      UpdateEmptyAddr(sectorCache, t, kvStart + len, cap);
      CacheBaseIs();
    }

    lemma BaseHas()
      requires Base()
      ensures 2 <= |flash| && oldest < |flash| && KV_HDR + REMAIN_THRESHOLD < cap && FlashOk(flash, cap)
    {
    }

    lemma CacheBaseHas()
      requires CacheBase()
      ensures Coherent(flash, cap, sectorCache[..], marked) && Aged(kvCache[..])
      ensures Tables() && (marked != {} ==> gcRequest)
    {
    }

    lemma CacheBaseIs()
      requires Coherent(flash, cap, sectorCache[..], marked)
      requires Tables() && (marked != {} ==> gcRequest)
      ensures CacheBase()
    {
    }

    /** The old record goes once its key is live elsewhere. */
    method FinishMove(a: Addr, ghost copy: Addr, ghost p: Promise)
      requires Base() && CacheBase() && Quiet(flash, steady) && Recoverable(flash, cap, p)
      requires Pend(flash, a) && Live(flash, copy) && At(flash, copy).key == At(flash, a).key
      modifies this`flash, this`hist, this`lastIsCompleteDel, kvCache, sectorCache
      ensures Base() && CacheBase() && Quiet(flash, steady) && Recoverable(flash, cap, p) && Ran(old(hist), hist, cap, p)
      ensures flash == Dropped(old(flash), a) && !lastIsCompleteDel
      ensures CacheOk(old(flash), old(kvCache[..]), {}) ==> CacheOk(flash, kvCache[..], {})
    {
      hide NameCrc;
      hide Coherent;
      hide PendingDirty;
      hide Quiet;
      hide FlashOk;
      hide NorRun;
      hide KeptRun;
      hide Keeps;
      hide Ran;
      ghost var f0, c0, last := flash, kvCache[..], lastIsCompleteDel;
      QuietStatus(f0, a, DELETED, steady);
      DelKv(a, true, copy, p);
      StatusFrame(f0, a, DELETED, flash);
      if CacheOk(f0, c0, {}) {
        CacheFollows(f0, flash, c0, {});
        if !last {
          CacheRemoved(flash, c0, kvCache[..], {}, NameCrc(At(f0, a).key));
          assert {} - {NameCrc(At(f0, a).key)} == {};
        }
      }
    }

    // -------------------------------------------------------------- garbage collection

    /** Erase and header: the keys are lost that no other sector stores. */
    method FormatSector(s: nat, ghost p: Promise)
      requires Base() && CacheBase() && s < |flash| && Recoverable(flash, cap, p) && p.reserve == 0
      modifies this`flash, this`hist, this`marked, sectorCache
      ensures Base() && CacheBase() && flash == old(flash)[s := FORMATTED] && marked == old(marked) - {s}
      ensures hist == old(hist) + [old(flash)[s := ERASED], flash]
      ensures StoredKeys(flash) <= StoredKeys(old(flash))
      ensures Recoverable(flash, cap, Losing(p, Lost(old(flash), flash)))
      ensures Ran(old(hist), hist, cap, Losing(p, Lost(old(flash), flash)))
      ensures Untraversed(old(sectorCache[..])) ==> Untraversed(sectorCache[..])
    {
      hide *;
      BaseHas();
      CacheBaseHas();
      ForgottenUntraversed(sectorCache[..], s);
      ghost var f0, h0 := flash, hist;
      ghost var q := Losing(p, Lost(f0, f0[s := FORMATTED]));
      StepErase(flash, cap, s);
      ErasedKeeps(f0, cap, s, ERASED, p);
      GuardErase(flash, s, ERASED, steady);
      Program(flash[s := ERASED], q);
      StepFormat(flash, cap, s);
      assert flash[s := FORMATTED] == f0[s := FORMATTED];
      ErasedKeeps(f0, cap, s, FORMATTED, p);
      ghost var h1 := hist;
      GuardErase(flash, s, FORMATTED, steady);
      Program(flash[s := FORMATTED], q);
      RanOn(h0, h1, hist, cap, q);
      FormattedCoherent(f0, cap, sectorCache[..], marked, s);
      CoherentOnce(f0, cap, sectorCache[..], marked);
      ForgetSector(sectorCache, s);
      marked := marked - {s};
      CacheBaseIs();
    }

    /** Collect one dirty sector: move what it still holds, then format it.  `starved` says that a record
        found no room, which does not happen while an EMPTY sector is in reserve. */
    method DoGc(s: nat, ghost p: Promise) returns (ghost starved: bool)
      requires Base() && CacheBase() && Quiet(flash, steady) && Recoverable(flash, cap, p)
      requires s < |flash| && flash[s].ok && flash[s].dirty in {DIRTY_TRUE, DIRTY_GC}
      requires gcRequest && marked == {} && (inRecovery || NoPending(flash))
      requires p.reserve == 0
      modifies this`flash, this`hist, this`lastIsCompleteDel, this`gcRequest, this`oldest, this`marked, kvCache, sectorCache
      ensures Base() && CacheBase() && Quiet(flash, steady) && gcRequest && marked == {}
      ensures Recoverable(flash, cap, Losing(p, Lost(old(flash), flash)))
      ensures Ran(old(hist), hist, cap, Losing(p, Lost(old(flash), flash)))
      ensures Collected(old(flash), flash, starved) && flash[s] == FORMATTED
      ensures forall t: nat :: t < |flash| && t != s ==>
                flash[t].ok == old(flash)[t].ok && flash[t].dirty == old(flash)[t].dirty
      ensures !starved && !old(lastIsCompleteDel) ==> !lastIsCompleteDel
      ensures !starved && CacheOk(old(flash), old(kvCache[..]), {}) ==> CacheOk(flash, kvCache[..], {})
      ensures Doomed(old(flash), s, cap) ==> flash == old(flash)[s := FORMATTED]
      ensures oldest == if s + 1 < |flash| then s + 1 else 0
      ensures forall t: nat :: t < |flash| && t != s && IsDirty(old(flash)[t]) ==> flash[t] == old(flash)[t]
      // with or without a reserve: room for all in another sector is enough, and if that is the only one, necessary
      ensures Fared(old(flash), flash, s, cap, starved)
    {
      hide *;
      BaseHas();
      ghost var f0, h0, c0 := flash, hist, kvCache[..];
      MarkGc(s, p);
      ghost var f1 := flash;
      CollectingStart(f0, f1, s);
      DoomedMarked(f0, s, cap);
      MarkedCache(f0, f1, c0);
      ghost var h1 := hist;
      ghost var t: Option<nat>;
      RoomsStart(f1, s, cap);
      starved, t := MoveAll(s, f0, f1, p);
      RanOn(h0, h1, hist, cap, p);
      ghost var f2, h2, c2 := flash, hist, kvCache[..];
      BaseHas();
      CollectingFacts(f0, f2, s, |flash[s].recs|, starved);
      QuietFormatted(f2, s, steady);
      FormatSector(s, p);
      assert flash[s] == FORMATTED;
      CollectingDone(f0, f2, flash, s, starved, t, EmptyCount(f0));
      CollectingLoses(f0, f2, flash, s, starved, p);
      RoomsEnd(f0, f1, f2, flash, s, cap, starved);
      CollectedOne(f0, flash, s, starved);
      DirtyUntouched(f0, flash, s);
      RanLosing(h0, h2, cap, p, Lost(f0, flash));
      RanOn(h0, h2, hist, cap, Losing(p, Lost(f0, flash)));
      FollowsIfRoom(f2, flash, c2, starved);
      DoomedFormat(f0, f1, s, cap);
      BaseHas();
      assert marked == {};
      GoOnAfter(s);
    }

    /** The next collection starts behind the sector just formatted. */
    method GoOnAfter(s: nat)
      requires Base() && CacheBase() && s < |flash|
      modifies this`oldest
      ensures Base() && CacheBase() && oldest == if s + 1 < |flash| then s + 1 else 0
    {
      hide FlashOk; hide NorRun; hide KeptRun; hide Coherent;
      oldest := if s + 1 < |flash| then s + 1 else 0;
    }

    lemma MarkedCache(f: Flash, g: Flash, c: Table)
      requires forall a :: Live(f, a) ==> Live(g, a) && At(g, a) == At(f, a)
      ensures CacheOk(f, c, {}) ==> CacheOk(g, c, {})
    {
      hide NameCrc;
      if CacheOk(f, c, {}) {
        CacheFollows(f, g, c, {});
      }
    }

    /** The record loop of `do_gc`. */
    method MoveAll(s: nat, ghost f0: Flash, ghost f1: Flash, ghost p: Promise)
      returns (ghost starved: bool, ghost t: Option<nat>)
      requires Base() && CacheBase() && Quiet(flash, steady) && Recoverable(flash, cap, p) && flash == f1
      requires Collecting(f0, f1, s, 0, false)
      requires EmptyCount(f0) > 0 ==> Reserve(f1, s, 0, None, EmptyCount(f0))
      requires gcRequest && (inRecovery || NoPending(f0))
      requires p.reserve == 0 && Rooms(f1, f1, s, 0, cap, false)
      modifies this`flash, this`hist, this`lastIsCompleteDel, this`gcRequest, kvCache, sectorCache
      ensures Base() && CacheBase() && Quiet(flash, steady) && gcRequest
      ensures Recoverable(flash, cap, p) && Ran(old(hist), hist, cap, p)
      ensures s < |flash| && Collecting(f0, flash, s, |flash[s].recs|, starved)
      ensures EmptyCount(f0) > 0 ==> !starved && Reserve(flash, s, |flash[s].recs|, t, EmptyCount(f0))
      ensures !starved && !old(lastIsCompleteDel) ==> !lastIsCompleteDel
      ensures !starved && CacheOk(f1, old(kvCache[..]), {}) ==> CacheOk(flash, kvCache[..], {})
      ensures Doomed(f1, s, cap) ==> flash == f1
      ensures Rooms(f1, flash, s, |flash[s].recs|, cap, starved)
    {
      hide NameCrc;
      hide FlashOk;
      hide NorRun;
      hide KeptRun;
      hide Keeps;
      hide Ran;
      hide Quiet;
      hide CacheOk;
      hide MoveEffect;
      hide Collecting;
      hide Reserve;
      hide EmptyCount;
      hide Coherent;
      hide PendingDirty;
      hide Doomed;
      hide Rooms;
      starved, t := false, None;
      ghost var h0 := hist;
      RanNot(h0, cap, p);
      CollectingFacts(f0, flash, s, 0, false);
      var i, n := 0, |flash[s].recs|;
      while i < n
        invariant Base() && CacheBase() && Quiet(flash, steady) && gcRequest
        invariant i <= n && Collecting(f0, flash, s, i, starved) && s < |flash| && |flash[s].recs| == n
        invariant Recoverable(flash, cap, p) && Ran(h0, hist, cap, p)
        invariant EmptyCount(f0) > 0 ==> !starved && Reserve(flash, s, i, t, EmptyCount(f0))
        invariant !starved && !old(lastIsCompleteDel) ==> !lastIsCompleteDel
        invariant !starved && CacheOk(f1, old(kvCache[..]), {}) ==> CacheOk(flash, kvCache[..], {})
        invariant Doomed(f1, s, cap) ==> flash == f1
        invariant Rooms(f1, flash, s, i, cap, starved)
      {
        CollectingFacts(f0, flash, s, i, starved);
        var kv := flash[s].recs[i];
        if kv.crcOk && kv.status in {WRITE, PRE_DELETE} {
          ghost var f2, h1 := flash, hist;
          MarkedNow(f2, s);
          var ok := MoveKv(Addr(s, i), kv, p);
          QuietCalm(f2, steady);
          RoomsMove(f1, f2, flash, s, i, cap, starved, oldest, inRecovery, ok, steady);
          CollectingMove(f0, f2, flash, s, i, starved, oldest, cap, inRecovery, ok);
          if EmptyCount(f0) > 0 {
            t := ReserveMove(f2, flash, s, i, t, EmptyCount(f0), oldest, cap, inRecovery, ok);
          }
          if Doomed(f1, s, cap) {
            DoomedMove(f2, flash, s, i, oldest, cap, inRecovery, ok);
          }
          starved := starved || !ok;
          RanOn(h0, h1, hist, cap, p);
        } else {
          KeptNeeds(flash, cap, Addr(s, i));
          CollectingSkip(f0, flash, s, i, starved);
          RoomsSkip(f1, flash, s, i, cap, starved);
          if EmptyCount(f0) > 0 {
            ReserveSkip(flash, s, i, t, EmptyCount(f0));
          }
        }
        i := i + 1;
      }
    }

    method MarkGc(s: nat, ghost p: Promise)
      requires Base() && CacheBase() && Quiet(flash, steady) && Recoverable(flash, cap, p) && gcRequest
      requires s < |flash| && flash[s].ok && flash[s].dirty in {DIRTY_TRUE, DIRTY_GC}
      modifies this`flash, this`hist, this`marked
      ensures Base() && CacheBase() && Quiet(flash, steady) && Recoverable(flash, cap, p) && Ran(old(hist), hist, cap, p)
      ensures flash == old(flash)[s := old(flash)[s].(dirty := DIRTY_GC)] && marked == old(marked) + {s}
      ensures hist == old(hist) + [flash]
      ensures s < |flash| && flash[s].ok && flash[s].store == STORE_USING && EmptyCount(flash) == EmptyCount(old(flash))
    {
      hide *;
      BaseHas();
      CacheBaseHas();
      var next := flash[s := flash[s].(dirty := DIRTY_GC)];
      DirtyStep(flash, cap, s, DIRTY_GC, p);
      QuietHeader(flash, s, DIRTY_GC, steady);
      MarkedCoherent(flash, cap, sectorCache[..], marked, s);
      GuardDirty(flash, s, DIRTY_GC, steady);
      Program(next, p);
      marked := marked + {s};
      CacheBaseIs();
    }

    /** The collection comes to sector `j` of its walk. */
    method CollectAt(start: nat, j: nat, ghost f0: Flash, ghost h0: seq<Flash>, ghost starved: bool, ghost p: Promise)
      returns (collected: bool, ghost more: bool)
      requires Base() && CacheBase() && Quiet(flash, steady) && gcRequest && marked == {}
      requires (inRecovery || NoPending(f0)) && p.reserve == 0
      requires Recoverable(flash, cap, Losing(p, Lost(f0, flash))) && Ran(h0, hist, cap, Losing(p, Lost(f0, flash)))
      requires j < |flash| && Underway(f0, flash, start, j, cap, starved) && Faring(f0, flash, start, j, cap, starved)
      requires Ahead(f0, flash, start, j)
      modifies this`flash, this`hist, this`lastIsCompleteDel, this`gcRequest, this`oldest, this`marked, kvCache, sectorCache
      ensures Base() && CacheBase() && Quiet(flash, steady) && gcRequest && marked == {} && |flash| == |old(flash)|
      ensures Recoverable(flash, cap, Losing(p, Lost(f0, flash))) && Ran(h0, hist, cap, Losing(p, Lost(f0, flash)))
      ensures Underway(f0, flash, start, j + 1, cap, starved || more) && Faring(f0, flash, start, j + 1, cap, starved || more)
      ensures Ahead(f0, flash, start, j + 1) && start < |f0| == |flash|
      ensures collected <==> IsDirty(f0[SectorAt(start, j, |f0|)])
      ensures oldest == if collected then NextStart(SectorAt(start, j, |f0|), |f0|) else old(oldest)
      ensures collected ==> EmptyCount(flash) > 0
      ensures !more && !old(lastIsCompleteDel) ==> !lastIsCompleteDel
      ensures !more && CacheOk(old(flash), old(kvCache[..]), {}) ==> CacheOk(flash, kvCache[..], {})
    {
      hide *;
      ghost var h1, f1 := hist, flash;
      collected, more := false, false;
      BaseHas();
      UnderwayFacts(f0, f1, start, j, cap, starved);
      var s := SectorAt(start, j, |flash|);
      var sector := ReadSector(s, false);
      if sector.Some? {
        DirtyExact(sector.value.dirty, f1[s].dirty);
      }
      if sector.Some? && sector.value.dirty in {DIRTY_TRUE, DIRTY_GC} {
        UnderwayDirty(f0, f1, start, j, cap, starved);
        LosingTwice(p, Lost(f0, f1), {});
        more := DoGc(s, Losing(p, Lost(f0, f1)));
        CollectedSize(f1, flash, more);
        FaringNext(f0, f1, flash, start, j, cap, starved, more);
        UnderwayNext(f0, f1, flash, start, j, cap, starved, more);
        LostOn(h0, h1, hist, cap, p, f0, f1, flash);
        EmptyNow(flash, s);
        DirtyIs(f1[s]);
        NextStartIs(s, |flash|);
        AheadNext(f0, f1, flash, start, j);
        collected := true;
      } else {
        DirtyIs(f1[s]);
        AheadSkip(f0, f1, start, j);
        UnderwaySkip(f0, f1, start, j, cap, starved);
        FaringSkip(f0, f1, start, j, cap, starved);
      }
    }

    /** Collect dirty sectors, oldest first, until `freeSize` bytes have been freed, but only if the
        empty sectors are down to the reserve. */
    method GcCollectByFreeSize(freeSize: nat, ghost p: Promise) returns (ghost starved: bool)
      requires Base() && CacheBase() && Quiet(flash, steady) && Recoverable(flash, cap, p)
      requires gcRequest && marked == {} && (inRecovery || NoPending(flash))
      requires p.reserve == 0
      modifies this`flash, this`hist, this`lastIsCompleteDel, this`gcRequest, this`oldest, this`marked, kvCache, sectorCache
      ensures Base() && CacheBase() && Quiet(flash, steady) && !gcRequest && marked == {}
      ensures Recoverable(flash, cap, Losing(p, Lost(old(flash), flash)))
      ensures Ran(old(hist), hist, cap, Losing(p, Lost(old(flash), flash)))
      ensures Collected(old(flash), flash, starved)
      ensures EmptyCount(old(flash)) <= GC_EMPTY_THRESHOLD && freeSize >= DbSize(|flash|, cap) ==>
                && NothingDirty(flash)
                && forall s: nat :: Doomed(old(flash), s, cap) ==>
                     s < |old(flash)| && flash == old(flash)[s := FORMATTED]
      ensures NothingDirty(old(flash)) ==> flash == old(flash) && oldest == old(oldest)
      // nothing while there are EMPTY sectors enough; else dirty sectors in walk order until enough is free
      ensures EmptyCount(old(flash)) > GC_EMPTY_THRESHOLD ==> flash == old(flash) && oldest == old(oldest)
      ensures EmptyCount(old(flash)) <= GC_EMPTY_THRESHOLD ==>
                Stopped(old(flash), flash, old(oldest), oldest, cap, freeSize)
      ensures FaredAll(old(flash), flash, old(oldest), cap, starved)
      ensures EmptyCount(flash) > 0 || NothingDirty(old(flash))
      ensures !starved && !old(lastIsCompleteDel) ==> !lastIsCompleteDel
      ensures !starved && CacheOk(old(flash), old(kvCache[..]), {}) ==> CacheOk(flash, kvCache[..], {})
    {
      hide *;
      starved := false;
      ghost var f0, h0, c0, last := flash, hist, kvCache[..], lastIsCompleteDel;
      BaseHas();
      RanNot(h0, cap, p);
      LostNone(f0, f0, p);
      var emptySectors, _ := Statistics();
      UnderwayStart(f0, oldest, cap);
      FaringStart(f0, oldest, cap);
      ManyEmpty(f0, oldest, cap);
      if emptySectors <= GC_EMPTY_THRESHOLD {
        var curFreeSize: nat, n, start := 0, |flash|, oldest;
        ghost var reached := n;
        AheadStart(f0, start);
        StandingStart(f0, start, cap, freeSize);
        for j := 0 to n
          invariant Base() && CacheBase() && Quiet(flash, steady) && gcRequest && marked == {} && |flash| == n
          invariant Recoverable(flash, cap, Losing(p, Lost(f0, flash))) && Ran(h0, hist, cap, Losing(p, Lost(f0, flash)))
          invariant Underway(f0, flash, start, j, cap, starved) && Ahead(f0, flash, start, j)
          invariant Standing(f0, start, j, cap, curFreeSize, oldest) && Unfinished(f0, start, j, cap, freeSize)
          invariant 0 < j ==> Unfinished(f0, start, j - 1, cap, freeSize)
          invariant curFreeSize <= j * cap && reached == n && Faring(f0, flash, start, j, cap, starved)
          invariant !starved && !last ==> !lastIsCompleteDel
          invariant !starved && CacheOk(f0, c0, {}) ==> CacheOk(flash, kvCache[..], {})
        {
          ghost var more;
          var collected;
          ghost var cur1, o1 := curFreeSize, oldest;
          collected, more := CollectAt(start, j, f0, h0, starved, p);
          StandingNext(f0, start, j, cap, freeSize, cur1, o1, if collected then cur1 + cap else cur1, oldest);
          starved := starved || more;
          NextSum(j, cap);
          if collected {
            curFreeSize := curFreeSize + cap;
            if curFreeSize >= freeSize {
              EnoughForAll(j + 1, n, cap, curFreeSize, freeSize);
              reached := j + 1;
              break;
            }
          }
        }
        BaseHas();
        UnderwayEnd(f0, flash, start, reached, cap, starved);
        FaringEnd(f0, flash, start, reached, cap, starved);
        StandingEnd(f0, flash, start, reached, cap, freeSize, curFreeSize, oldest);
        StoppedClean(f0, flash, start, oldest, cap, freeSize);
      }
      CacheBaseHas();
      gcRequest := false;
      CacheBaseIs();
    }

    // -------------------------------------------------------------- the key-value operations

    /** Between operations: lookups of the live records answer `model`, nothing is half done, and an
        EMPTY sector is in reserve. */
    ghost predicate Valid()
      reads this, kvCache, sectorCache
    {
      && Base() && CacheBase() && Quiet(flash, steady) && marked == {}
      && Reads(flash, model) && NoPending(flash) && EmptyCount(flash) > 0
      && !gcRequest && !inRecovery && !lastIsCompleteDel
      && GoodNames(names) && model.Keys <= names && CacheOk(flash, kvCache[..], {})
    }

    lemma Promised()
      requires Valid()
      ensures Recoverable(flash, cap, Exactly(model).(tidy := true)) && LiveNames()
    {
      hide Coherent; hide FlashOk; hide NorRun; hide KeptRun; hide Quiet; hide CacheOk;
      ReadsIsKeeps(flash, model);
      OtherTidy(flash, Exactly(model), Exactly(model).(tidy := true));
    }

    /** `new_kv`: allocate, and if that fails collect garbage once and try again. */
    method NewKv(size: nat) returns (r: Option<nat>)
      requires Valid()
      modifies this`flash, this`hist, this`lastIsCompleteDel, this`gcRequest, this`oldest, this`marked, kvCache, sectorCache
      ensures Valid() && Ran(old(hist), hist, cap, Exactly(model).(tidy := true))
      ensures r == Choose(flash, oldest, size, false, cap)
      ensures forall s: nat :: r == Some(s) <==> IsChoice(flash, oldest, size, false, cap, s)
      ensures MadeRoom(old(flash), flash, old(oldest), oldest, cap, size)
      ensures Choose(old(flash), old(oldest), size, false, cap).Some? || EmptyCount(old(flash)) > GC_EMPTY_THRESHOLD ==>
                hist == old(hist)
    {
      hide *;
      ValidHas();
      ghost var p, h0, f0 := Exactly(model).(tidy := true), hist, flash;
      Promised();
      ExactReserve(model);
      RanNot(h0, cap, p);
      RoomAlready(flash, oldest, cap, size);
      r := AllocKv(size);
      if r.None? && gcRequest {
        ghost var starved := GcCollectByFreeSize(size, p);
        Unchanged(f0, flash, starved, cap, model);
        BaseHas();
        RoomMade(f0, flash, old(oldest), oldest, cap, size);
        r := AllocKv(size);
        if r.None? {
          CacheBaseHas();
          gcRequest := false;
          CacheBaseIs();
        }
      }
      NowValid();
    }

    lemma ValidHas()
      requires Valid()
      ensures Base() && CacheBase() && Quiet(flash, steady) && marked == {} && Reads(flash, model) && NoPending(flash)
      ensures EmptyCount(flash) > 0 && !gcRequest && !inRecovery && !lastIsCompleteDel
      ensures GoodNames(names) && model.Keys <= names && CacheOk(flash, kvCache[..], {}) && oldest < |flash|
    {
    }

    lemma NowValid()
      requires Base() && CacheBase() && Quiet(flash, steady) && marked == {} && Reads(flash, model) && NoPending(flash)
      requires EmptyCount(flash) > 0 && !gcRequest && !inRecovery && !lastIsCompleteDel
      requires GoodNames(names) && model.Keys <= names && CacheOk(flash, kvCache[..], {})
      ensures Valid()
    {
    }

    /** `create_kv_blob` for a place that the allocator has granted: header, name, value, WRITE. */
    method CreateKvBlob(t: nat, key: Key, value: Value, ghost p: Promise) returns (err: FdbErr)
      requires Base() && CacheBase() && Quiet(flash, steady) && Recoverable(flash, cap, p)
      requires t < |flash| && flash[t].store in {STORE_EMPTY, STORE_USING}
      requires Fits(flash[t], KvLen(key, value), gcRequest, cap) && (steady || EndsSolid(NewRec(key, value)))
      requires !HasLive(flash, key) && Bound(p.after, NewRec(key, value))
      requires |key| != NAME_MAX && CacheOk(flash, kvCache[..], {NameCrc(key)})
      requires EmptyCount(flash) - EmptyBit(flash[t]) >= p.reserve
      requires flash[t].store == STORE_EMPTY ==> EmptyCount(flash) > GC_EMPTY_THRESHOLD
      modifies this`flash, this`hist, kvCache, sectorCache
      ensures Base() && CacheBase() && Quiet(flash, steady) && Recoverable(flash, cap, p) && Ran(old(hist), hist, cap, p)
      ensures err == if |key| > NAME_MAX then KV_NAME_ERR else NO_ERR
      ensures err != NO_ERR ==> flash == old(flash) && kvCache[..] == old(kvCache[..])
      ensures err == NO_ERR ==> flash == Placed(old(flash), t, NewRec(key, value)) && CacheOk(flash, kvCache[..], {})
    {
      hide *;
      BaseHas();
      ghost var f1, c0, h0, crc := flash, kvCache[..], hist, NameCrc(key);
      RanNot(h0, cap, p);
      if |key| > NAME_MAX {
        return KV_NAME_ERR;
      }
      // the size check cannot fail: the allocator has found room for the record
      NewPlan(f1, cap, gcRequest, t, key, value, steady);
      var _ := UpdateSecStatus(t, KvLen(key, value), p);
      ghost var h1 := hist;
      var kvAddr := Addr(t, |flash[t].recs|);
      ghost var slot := WriteRecord(t, key, value, p);
      RanOn(h0, h1, hist, cap, p);
      NewPlaced(f1, flash, cap, t, key, value, steady);
      CopyCached(f1, flash, c0, kvCache[..], key, kvAddr, slot);
      return NO_ERR;
    }

    method WriteRecord(t: nat, key: Key, value: Value, ghost p: Promise) returns (ghost slot: nat)
      requires Base() && CacheBase() && Recoverable(flash, cap, p)
      requires Roomy(flash, cap, t, KvLen(key, value)) && |key| < NAME_MAX && Takes(flash[t].recs, NewRec(key, value))
      requires !HasLive(flash, key) && Bound(p.after, NewRec(key, value)) && (steady ==> Steady(flash))
      modifies this`flash, this`hist, kvCache, sectorCache
      ensures Base() && CacheBase() && Recoverable(flash, cap, p) && Ran(old(hist), hist, cap, p)
      ensures flash == WithNew(old(flash), t, NewRec(key, value))
      // the status byte, the header, the name, the value and the status again are programs of their own
      ensures var f, len := old(flash), KvLen(key, value);
              hist == old(hist) + [WithNew(f, t, Bare(f[t])), WithNew(f, t, Rec(PRE_WRITE, true, [], [], len, false)),
                                   WithNew(f, t, Rec(PRE_WRITE, true, key, [], len, false)),
                                   WithNew(f, t, Rec(PRE_WRITE, true, key, value, len, true)), flash]
      ensures Mapped(old(kvCache[..]), kvCache[..], NameCrc(key), Addr(t, |old(flash)[t].recs|), slot)
    {
      hide *;
      CacheBaseHas();
      ghost var f0, h0 := flash, hist;
      WriteFacts(f0, cap, t, key, value, p);
      var len := KvLen(key, value);
      var kvAddr := Addr(t, |flash[t].recs|);
      var kvStart := SECTOR_HDR + Free(flash[t].recs);
      var header := Rec(PRE_WRITE, true, [], [], len, false);
      var named := header.(key := key);
      var whole := Rec(PRE_WRITE, true, key, value, len, true);
      Begin(t, len, p);
      ghost var h1 := hist;
      Fill(t, f0, Bare(f0[t]), header, p);
      RanOn(h0, h1, hist, cap, p);
      h1 := hist;
      Fill(t, f0, header, named, p);
      RanOn(h0, h1, hist, cap, p);
      // the free address behind the whole record goes into the table before the value is written
      CoherentOnce(f0, cap, sectorCache[..], marked);
      UpdateEmptyAddr(sectorCache, t, kvStart + len, cap);
      UpdateKvCache(kvCache, NameCrc(key), Some(kvAddr));
      slot :| Mapped(old(kvCache[..]), kvCache[..], NameCrc(key), kvAddr, slot);
      h1 := hist;
      Fill(t, f0, named, whole, p);
      RanOn(h0, h1, hist, cap, p);
      h1 := hist;
      Commit(t, f0, whole, p);
      RanOn(h0, h1, hist, cap, p);
      WrittenCoherent(f0, cap, old(sectorCache[..]), marked, t, key, value);
      CacheBaseIs();
    }

    /** The heart of `set_kv`: mark the old record, write the new one, drop the old one. */
    method Replace(t: nat, oldKv: Option<Addr>, key: Key, value: Value, ghost p: Promise)
      returns (err: FdbErr, ghost kvAddr: Addr)
      requires Base() && CacheBase() && Quiet(flash, steady) && Recoverable(flash, cap, p) && NoPending(flash)
      requires CacheOk(flash, kvCache[..], {}) && !lastIsCompleteDel
      requires oldKv.Some? ==> Live(flash, oldKv.value) && At(flash, oldKv.value).key == key
      requires |key| != NAME_MAX && (oldKv.None? ==> !HasLive(flash, key))
      requires t < |flash| && flash[t].store in {STORE_EMPTY, STORE_USING}
      requires Fits(flash[t], KvLen(key, value), false, cap) && !gcRequest && (steady || EndsSolid(NewRec(key, value)))
      requires Bound(p.after, NewRec(key, value))
      requires EmptyCount(flash) - EmptyBit(flash[t]) >= p.reserve
      requires flash[t].store == STORE_EMPTY ==> EmptyCount(flash) > GC_EMPTY_THRESHOLD
      modifies this`flash, this`hist, this`lastIsCompleteDel, kvCache, sectorCache
      ensures Base() && CacheBase() && Quiet(flash, steady) && Recoverable(flash, cap, p) && NoPending(flash)
      ensures Ran(old(hist), hist, cap, p.(tidy := false)) && TidyRun(old(hist), hist, key)
      ensures CacheOk(flash, kvCache[..], {}) && !lastIsCompleteDel
      ensures err == if |key| > NAME_MAX then KV_NAME_ERR else NO_ERR
      ensures err != NO_ERR ==> flash == old(flash)
      ensures err == NO_ERR ==>
                && Live(flash, kvAddr) && At(flash, kvAddr) == NewRec(key, value)
                && kvAddr == Addr(t, |old(flash)[t].recs|) && Overwrites(old(flash), flash, t, key, value, oldKv)
                && EmptyCount(flash) == EmptyCount(old(flash)) - EmptyBit(old(flash)[t])
    {
      hide *;
      BaseHas();
      HistEnds();
      ghost var f0, h0, r, q := flash, hist, NewRec(key, value), p.(tidy := false);
      ghost var pt := p.(tidy := true);
      RanNot(h0, cap, q);
      TidyNot(h0, key);
      CacheWeaker(flash, kvCache[..], {NameCrc(key)});
      NothingPendingDirty(flash);
      WithTidy(flash, cap, p);
      ReplacePlan(f0, cap, t, key, value);
      NonePending(f0);
      NewLen(key, value);
      kvAddr := Addr(t, |f0[t].recs|);
      FoundLive(f0, oldKv, key);
      if oldKv.Some? {
        LongNames(flash, cap, oldKv.value);
        Withdraw(oldKv.value, q);
        PreDeletedOnly(f0, oldKv.value);
        HistEnds();
        WithdrawTidy(h0, hist, f0, cap, q, oldKv.value, key);
        WithTidy(flash, cap, p);
        ReplaceOn(f0, flash, cap, t, oldKv.value, key, value);
      }
      ghost var f1, h1 := flash, hist;
      err := CreateKvBlob(t, key, value, pt);
      TidyOn(h0, h1, hist, cap, pt, key);
      WithoutTidy(flash, cap, p);
      if err != NO_ERR {
        return;
      }
      ghost var f2, h2 := flash, hist;
      PlacedNew(f1, f2, t, key, value, oldKv);
      if oldKv.Some? {
        PlacedKeeps(f1, f2, t, key, value, oldKv.value);
        DroppedOnly(f2, oldKv.value);
        FinishMove(oldKv.value, kvAddr, pt);
        OverwritesOld(f0, flash, t, key, value, oldKv.value);
        TidyOn(h0, h2, hist, cap, pt, key);
        WithoutTidy(flash, cap, p);
      } else {
        NonePending(f2);
        OverwritesNone(f0, flash, t, key, value);
      }
    }

    lemma HistEnds()
      requires Base()
      ensures hist != [] && hist[|hist| - 1] == flash
    {
    }

    /** What every step keeps, from one content of the history to a later one. */
    lemma HistKept(from: nat, at: nat)
      requires Base() && from <= at < |hist| && Spare(hist[from])
      ensures Spare(hist[at]) && (steady ==> NearlySteady(hist[at]))
    {
      hide FlashOk; hide NorRun; hide Spare; hide NearlySteady;
      SpareFrom(hist, steady, from, at);
    }

    lemma HistCounted(at: nat)
      requires Base() && at < |hist|
      ensures steady ==> NearlySteady(hist[at])
    {
      hide FlashOk; hide NorRun; hide Spare; hide NearlySteady;
    }

    lemma HistMore(h: seq<Flash>)
      requires h <= hist && |h| == 1
      ensures |hist| >= 1 && hist[0] == h[0]
    {
    }

    lemma HistSize(at: nat)
      requires Base() && at < |hist|
      ensures |hist[at]| == |flash| >= 2
    {
      hide FlashOk;
      RunSize(hist, at);
    }

    /** `set_kv` once room has been found.  A power cut at any step leaves the old or the new value. */
    method ReplaceKv(t: nat, key: Key, value: Value) returns (err: FdbErr)
      requires Valid() && key in names && (steady || EndsSolid(NewRec(key, value)))
      requires t < |flash| && flash[t].store in {STORE_EMPTY, STORE_USING}
      requires Fits(flash[t], KvLen(key, value), false, cap)
      requires flash[t].store == STORE_EMPTY ==> EmptyCount(flash) > GC_EMPTY_THRESHOLD
      modifies this`flash, this`hist, this`lastIsCompleteDel, this`model, kvCache, sectorCache
      ensures Valid()
      ensures err == if |key| > NAME_MAX then KV_NAME_ERR else NO_ERR
      ensures model == if err == NO_ERR then old(model)[key := value] else old(model)
      ensures err != NO_ERR ==> flash == old(flash)
      ensures err == NO_ERR ==> var a := Addr(t, |old(flash)[t].recs|); Live(flash, a) && At(flash, a) == NewRec(key, value)
      ensures err == NO_ERR ==> Overwritten(old(flash), flash, t, key, value)
      ensures Ran(old(hist), hist, cap, Changing(old(model), old(model)[key := value]))
      ensures TidyRun(old(hist), hist, key)
    {
      hide *;
      ValidHas();
      ghost var p, m, f0 := Changing(model, model[key := value]), model, flash;
      Promised();
      ChangePlan(flash, cap, model, key, value, t, names);
      var oldKv := FindKv(key);
      FoundLive(flash, oldKv, key);
      ghost var kvAddr;
      err, kvAddr := Replace(t, oldKv, key, value, p);
      ChangeDone(flash, cap, m, key, value);
      if err == NO_ERR {
        OverwrittenIs(f0, flash, m, t, key, value, oldKv);
        NewSettles(flash, cap, m, key, value, kvAddr);
        model := model[key := value];
        MoreNames(m, key, value, names);
      }
      NowValid();
    }

    /** `set_kv`; no value means delete.  Either nothing is left uncounted in any sector, or the value must not
        end in a byte that looks erased. */
    method SetKv(key: Key, value: Option<Value>) returns (err: FdbErr)
      requires Valid() && key in names && (value.None? || steady || EndsSolid(NewRec(key, value.value)))
      modifies this`flash, this`hist, this`lastIsCompleteDel, this`gcRequest, this`oldest, this`marked, this`model
      modifies kvCache, sectorCache
      ensures Valid()
      ensures value.None? ==>
                && err == (if key in old(model) then NO_ERR else KV_NAME_ERR)
                && model == old(model) - {key}
                && Ran(old(hist), hist, cap, Changing(old(model), old(model) - {key}).(tidy := true))
      ensures value.Some? ==>
                && Ran(old(hist), hist, cap, Changing(old(model), old(model)[key := value.value]).(reserve := 0))
                && TidyRun(old(hist), hist, key)
                && (Choose(old(flash), old(oldest), KvLen(key, value.value), false, cap).Some? ==>
                      Ran(old(hist), hist, cap, Changing(old(model), old(model)[key := value.value])))
                && model == (if err == NO_ERR then old(model)[key := value.value] else old(model))
                && (err == NO_ERR || err == SAVED_FULL || err == KV_NAME_ERR)
                && (err != SAVED_FULL ==> (err == NO_ERR <==> |key| <= NAME_MAX))
                && (err == SAVED_FULL ==> Choose(flash, oldest, KvLen(key, value.value), false, cap).None?)
                && (Choose(old(flash), old(oldest), KvLen(key, value.value), false, cap).Some? ==> err != SAVED_FULL)
                // room is made first if there is none, and then the record goes where the allocator says
                && exists f, o: nat :: SetDone(old(flash), f, flash, old(oldest), o, cap, key, value.value, err)
    {
      hide *;
      if value.None? {
        err := DelByName(key);
      } else {
        ghost var h0, m, m' := hist, model, model[key := value.value];
        ghost var p := Changing(m, m').(reserve := 0);
        ValidHas();
        HistEnds();
        TidyNot(h0, key);
        var t := NewKv(KvLen(key, value.value));
        ghost var h1, f1, o1 := hist, flash, oldest;
        ValidHas();
        RoomKept(old(flash), f1, old(oldest), o1, cap, KvLen(key, value.value));
        RanOpens(h0, h1, cap, m, m');
        TidyOn(h0, h0, h1, cap, p.(tidy := true), key);
        Plain(m, m');
        RanPlain(h0, h1, cap, p);
        if t.None? {
          SetIsDone(old(flash), f1, f1, old(oldest), o1, cap, key, value.value, SAVED_FULL);
          return SAVED_FULL;
        }
        ValidHas();
        HistEnds();
        Granted(flash, oldest, KvLen(key, value.value), cap, t.value);
        err := ReplaceKv(t.value, key, value.value);
        SetIsDone(old(flash), f1, flash, old(oldest), o1, cap, key, value.value, err);
        RanWithoutReserve(h1, hist, cap, Changing(m, m'));
        RanOn(h0, h1, hist, cap, p);
        TidyTwice(h0, h1, hist, key);
        // no record was written into a sector that got full, so no collection is requested here
        ValidHas();
        assert !gcRequest;
      }
    }

    /** `fdb_kv_del`. */
    method DelByName(key: Key) returns (err: FdbErr)
      requires Valid() && key in names
      modifies this`flash, this`hist, this`lastIsCompleteDel, this`model, kvCache, sectorCache
      ensures Valid()
      ensures err == if key in old(model) then NO_ERR else KV_NAME_ERR
      ensures model == old(model) - {key}
      ensures err != NO_ERR ==> flash == old(flash)
      ensures forall a :: Live(old(flash), a) && At(old(flash), a).key == key ==>
                && flash == Dropped(old(flash), a)
                && In(flash, a) && At(flash, a).status == DELETED && flash[a.sec].dirty != DIRTY_FALSE
      ensures Ran(old(hist), hist, cap, Changing(old(model), old(model) - {key}).(tidy := true))
    {
      hide *;
      ValidHas();
      ghost var p, f0, h0, m := Changing(model, model - {key}).(tidy := true), flash, hist, model;
      RanNot(h0, cap, p);
      Promised();
      DropPlan(flash, cap, m, key);
      ReadsFacts(flash, model, key);
      var kv := FindKv(key);
      FoundLive(flash, kv, key);
      OnlyOne(flash, m, key, kv);
      if kv.None? {
        assert model - {key} == model;
        NowValid();
        return KV_NAME_ERR;
      }
      ghost var c1 := kvCache[..];
      DelKv(kv.value, true, kv.value, p);
      QuietDropped(f0, kv.value, steady);
      DeletedOnly(f0, kv.value);
      DropDone(flash, cap, m, key);
      DropCached(f0, flash, c1, kvCache[..], kv.value, key);
      model := model - {key};
      FewerNames(m, key, names);
      NowValid();
      return NO_ERR;
    }

    /** `get_kv`: what fits the buffer, and the length of the whole value. */
    method GetKv(key: Key, bufLen: nat) returns (data: seq<bv8>, valueLen: nat)
      requires Valid() && key in names
      modifies kvCache, sectorCache
      ensures Valid() && model == old(model)
      ensures key in model ==> valueLen == |model[key]| && data == model[key][..if bufLen < valueLen then bufLen else valueLen]
      ensures key !in model ==> valueLen == 0 && data == []
    {
      hide *;
      ValidHas();
      Promised();
      ReadsFacts(flash, model, key);
      var kv := FindKv(key);
      FoundLive(flash, kv, key);
      NowValid();
      data, valueLen := [], 0;
      if kv.Some? {
        var rec := At(flash, kv.value);
        BoundTo(model, rec);
        valueLen := |rec.value|;
        var readLen := if bufLen > valueLen then valueLen else bufLen;
        data := rec.value[..readLen];
      }
    }

    // -------------------------------------------------------------- boot

    /** The last sector in use that follows an empty one; 0 if there is none.  The scan reads the sector table before
        that is reset: with the zeros of a cold start it comes to the first sector again and again, and finds nothing. */
    method FindOldest() returns (o: nat)
      requires Base() && (Zeroed(sectorCache[..]) || Coherent(flash, cap, sectorCache[..], {}))
      modifies sectorCache
      ensures Zeroed(old(sectorCache[..])) ==> o == 0
      ensures Coherent(flash, cap, old(sectorCache[..]), {}) ==> IsOldest(flash, o)
    {
      hide FlashOk; hide NorRun; hide KeptRun; hide Coherent; hide Zeroed; hide Agrees;
      o := 0;
      ghost var t0 := sectorCache[..];
      ZeroedIncoherent(flash, cap, t0, {});
      var last := STORE_UNUSED;
      var next, traversed := Some(0), 0;
      while next.Some?
        invariant traversed <= |flash| + 1
        invariant Zeroed(t0) ==> sectorCache[..] == t0 && o == 0 && last == STORE_UNUSED && (next.Some? ==> next == Some(0))
        invariant Coherent(flash, cap, t0, {}) ==>
                    && Coherent(flash, cap, sectorCache[..], {}) && Scanned(flash, traversed, o, last)
                    && (if traversed < |flash| then next == Some(traversed) else next.None?)
        invariant next.Some? ==> next.value < |flash| && traversed <= |flash|
        decreases |flash| + 1 - traversed
      {
        var s := next.value;
        var sector := ReadSectorInfo(sectorCache, flash, cap, s, false, {});
        StoreRead(flash, cap, s, sector);
        ghost var o1, last1 := o, last;
        if last == STORE_EMPTY && sector.store in {STORE_USING, STORE_FULL} {
          o := s;
        }
        last := sector.store;
        traversed := traversed + 1;
        next := NextSector(sector, traversed, |flash|);
        if Coherent(flash, cap, t0, {}) {
          ScannedNext(flash, traversed - 1, o1, last1, o);
        }
      }
      ScannedAll(flash, o, last);
    }

    /** Both tables are cleared. */
    method ResetCache()
      requires Tables() && marked == {}
      modifies kvCache, sectorCache
      ensures CacheBase() && Cleared(kvCache[..]) && Untraversed(sectorCache[..])
    {
      hide Coherent;
      for i := 0 to sectorCache.Length
        invariant Aged(kvCache[..])
        invariant forall j :: 0 <= j < i ==> sectorCache[j].None?
      {
        sectorCache[i] := None;
      }
      ClearedCoherent(flash, cap, sectorCache[..]);
      ClearKvCache();
    }

    method ClearKvCache()
      requires CacheBase()
      modifies kvCache
      ensures CacheBase() && Cleared(kvCache[..])
    {
      hide Coherent;
      for i := 0 to kvCache.Length
        invariant CacheBase()
        invariant forall j :: 0 <= j < i ==> kvCache[j].addr.None?
      {
        kvCache[i] := kvCache[i].(addr := None);
      }
    }

    /** Format every sector whose header is not there; if that is all of them, start afresh.  A database that may not be
        formatted is left alone, and the check says whether it is in order. */
    method CheckSectorHeaders(notFormatable: bool, ghost p: Promise) returns (failed: nat)
      requires Base() && CacheBase() && marked == {} && Recoverable(flash, cap, p) && p.reserve == 0
      requires Untraversed(sectorCache[..]) && Cleared(kvCache[..])
      modifies this`flash, this`hist, this`oldest, this`marked, kvCache, sectorCache
      ensures Base() && CacheBase() && marked == {} && Recoverable(flash, cap, p) && Ran(old(hist), hist, cap, p)
      ensures Untraversed(sectorCache[..]) && Cleared(kvCache[..])
      ensures failed > 0 <==> exists s: nat :: s < |old(flash)| && !old(flash)[s].ok
      ensures notFormatable ==> flash == old(flash) && hist == old(hist)
      ensures !notFormatable ==>
                && |flash| == |old(flash)|
                && forall s: nat :: s < |flash| ==> flash[s] == if old(flash)[s].ok then old(flash)[s] else FORMATTED
      ensures oldest == if !notFormatable && (forall s: nat :: s < |old(flash)| ==> !old(flash)[s].ok) then 0 else old(oldest)
    {
      hide *;
      BaseHas();
      ghost var f0, h0 := flash, hist;
      RanNot(h0, cap, p);
      failed := 0;
      var n, start := |flash|, oldest;
      HeadersStart(f0, start);
      for j := 0 to n
        invariant Base() && CacheBase() && Recoverable(flash, cap, p) && Ran(h0, hist, cap, p)
        invariant |flash| == n && oldest == start && (notFormatable ==> failed == 0 && hist == h0)
        invariant marked == {} && Untraversed(sectorCache[..]) && Cleared(kvCache[..])
        invariant Headers(f0, flash, start, j, failed) && failed <= j
      {
        var s := SectorAt(start, j, n);
        HeadersAt(f0, flash, start, j, failed);
        var sector := ReadSector(s, false);
        if sector.None? {
          failed := failed + 1;
          if notFormatable {
            HeadersBad(f0, flash, start, j);
            return;
          }
          ghost var h1, f1 := hist, flash;
          BaseHas();
          NoRecords(flash, cap, s);
          FormatSector(s, p);
          assert marked == {};
          SameLost(f1, flash, s, p);
          RanOn(h0, h1, hist, cap, p);
        }
      }
      HeadersEnd(f0, flash, start, failed, cap);
      BaseHas();
      if failed == n {
        ghost var f1, h1 := flash, hist;
        SetDefault(p);
        AllSame(f1, flash);
        LostNone(f1, flash, p);
        RanOn(h0, h1, hist, cap, p);
      }
    }

    /** `fdb_kv_set_default` without default keys: whatever was stored is given up. */
    method SetDefault(ghost p: Promise)
      requires Base() && CacheBase() && marked == {} && Recoverable(flash, cap, p) && p.reserve == 0
      modifies this`flash, this`hist, this`oldest, this`marked, kvCache, sectorCache
      ensures Base() && CacheBase() && marked == {} && Cleared(kvCache[..]) && oldest == 0
      ensures |flash| == |old(flash)| && forall s: nat :: s < |flash| ==> flash[s] == FORMATTED
      ensures Recoverable(flash, cap, Losing(p, Lost(old(flash), flash)))
      ensures Ran(old(hist), hist, cap, Losing(p, Lost(old(flash), flash)))
      ensures Untraversed(old(sectorCache[..])) ==> Untraversed(sectorCache[..])
    {
      hide *;
      BaseHas();
      ghost var f0, h0 := flash, hist;
      RanNot(h0, cap, p);
      LostNone(f0, f0, p);
      ClearKvCache();
      for s := 0 to |flash|
        invariant Base() && CacheBase() && marked == {} && Cleared(kvCache[..]) && |flash| == |f0|
        invariant Recoverable(flash, cap, Losing(p, Lost(f0, flash))) && Ran(h0, hist, cap, Losing(p, Lost(f0, flash)))
        invariant forall u: nat :: u < s ==> flash[u] == FORMATTED
        invariant StoredKeys(flash) <= StoredKeys(f0)
        invariant Untraversed(old(sectorCache[..])) ==> Untraversed(sectorCache[..])
      {
        ghost var h1, f1 := hist, flash;
        LosingTwice(p, Lost(f0, f1), {});
        FormatSector(s, Losing(p, Lost(f0, f1)));
        LostOn(h0, h1, hist, cap, p, f0, f1, flash);
        assert marked == {};
      }
      BaseHas();
      StartAgain();
    }

    method StartAgain()
      requires Base() && CacheBase()
      modifies this`oldest
      ensures Base() && CacheBase() && oldest == 0
    {
      hide FlashOk; hide NorRun; hide KeptRun; hide Coherent;
      oldest := 0;
    }

    /** `read_kv` gives up a first slot without a record header: it programs ERR_HDR over it.  The walks
        at boot do this when they first come to a sector; here it is done for all sectors up front. */
    method SettleSectors(ghost p: Promise)
      requires Base() && CacheBase() && Untraversed(sectorCache[..]) && Recoverable(flash, cap, p) && CalmBy(flash, steady)
      modifies this`flash, this`hist
      ensures Base() && CacheBase() && Recoverable(flash, cap, p) && Ran(old(hist), hist, cap, p)
      ensures Quiet(flash, steady)
      ensures |flash| == |old(flash)| && forall s: nat :: s < |flash| ==> flash[s] == SettledAs(old(flash)[s])
    {
      hide Keeps;
      hide NorRun;
      hide KeptRun;
      hide Ran;
      hide Recoverable;
      hide FlashOk;
      hide CalmBy;
      hide Coherent;
      hide Untraversed;
      ghost var f0, h0 := flash, hist;
      RanNot(h0, cap, p);
      for s := 0 to |flash|
        invariant Base() && CacheBase() && CalmBy(flash, steady)
        invariant Recoverable(flash, cap, p) && Ran(h0, hist, cap, p) && |flash| == |f0|
        invariant forall u: nat :: u < |flash| ==> flash[u] == if u < s then SettledAs(f0[u]) else f0[u]
      {
        ghost var h1, f1 := hist, flash;
        if flash[s].store == STORE_USING && flash[s].recs == [] {
          BlankStep(flash, cap, s, p);
          BlankCalm(flash, s, steady);
          UntraversedCoherent(flash, WithNew(flash, s, BLANK), cap, sectorCache[..], marked);
          GuardBlank(flash, s, steady);
          Program(WithNew(flash, s, BLANK), p);
        } else if flash[s].store == STORE_USING && !flash[s].recs[0].hdr && flash[s].recs[0].status != ERR_HDR {
          BareStep(flash, cap, s, p);
          BareIdle(flash, cap, s);
          StatusCalm(flash, Addr(s, 0), ERR_HDR, WithStatus(flash, Addr(s, 0), ERR_HDR), steady);
          StatusCoherent(flash, cap, sectorCache[..], marked, Addr(s, 0), ERR_HDR);
          GuardStatus(flash, Addr(s, 0), ERR_HDR, steady);
          Program(WithStatus(flash, Addr(s, 0), ERR_HDR), p);
        }
        RanNot(hist, cap, p);
        RanOn(h0, h1, hist, cap, p);
      }
      SettledOnce(f0);
    }

    /** Resuming a collection comes to sector `j` of its walk. */
    method ResumeAt(start: nat, j: nat, size: nat, ghost f0: Flash, ghost h0: seq<Flash>, ghost starved: bool, ghost p: Promise)
      returns (ghost more: bool)
      requires Base() && CacheBase() && Quiet(flash, steady) && inRecovery && !gcRequest && marked == {} && p.reserve == 0
      requires Recoverable(flash, cap, Losing(p, Lost(f0, flash))) && Ran(h0, hist, cap, Losing(p, Lost(f0, flash)))
      requires j < |flash| && start < |flash| && size == DbSize(|flash|, cap)
      requires Resumed(f0, flash, start, j, cap, starved) && Finished(f0, flash, start, oldest, j, cap, size)
      requires Resuming(f0, flash, start, oldest, j, cap, starved)
      modifies this`flash, this`hist, this`lastIsCompleteDel, this`gcRequest, this`oldest, this`marked, kvCache, sectorCache
      ensures Base() && CacheBase() && Quiet(flash, steady) && !gcRequest && marked == {} && |flash| == |old(flash)|
      ensures Recoverable(flash, cap, Losing(p, Lost(f0, flash))) && Ran(h0, hist, cap, Losing(p, Lost(f0, flash)))
      ensures Resumed(f0, flash, start, j + 1, cap, starved || more)
      ensures Finished(f0, flash, start, oldest, j + 1, cap, size)
      ensures Resuming(f0, flash, start, oldest, j + 1, cap, starved || more)
      ensures !more && CacheOk(old(flash), old(kvCache[..]), {}) ==> CacheOk(flash, kvCache[..], {})
      ensures !more && !old(lastIsCompleteDel) ==> !lastIsCompleteDel
    {
      hide *;
      more := false;
      ghost var f1, h1, o1 := flash, hist, oldest;
      BaseHas();
      var s := SectorAt(start, j, |flash|);
      var sector := ReadSector(s, false);
      if sector.Some? {
        DirtyExact(sector.value.dirty, f1[s].dirty);
      } else {
        ErasedUnmarked(f1, cap, s);
      }
      if sector.Some? && sector.value.dirty == DIRTY_GC {
        ResumedGc(f0, f1, start, j, cap, starved);
        RequestGc();
        LosingTwice(p, Lost(f0, f1), {});
        more := GcCollectByFreeSize(size, Losing(p, Lost(f0, f1)));
        CollectedSize(f1, flash, more);
        ResumedNext(f0, f1, flash, start, j, cap, starved, more);
        ResumingNext(f0, f1, flash, start, o1, oldest, j, cap, starved, more);
        FinishedNext(f0, f1, flash, start, o1, oldest, j, cap, size);
        LostOn(h0, h1, hist, cap, p, f0, f1, flash);
      } else {
        ResumedSkip(f0, flash, start, j, cap, starved);
        ResumingSkip(f0, flash, start, oldest, j, cap, starved);
        FinishedSkip(f0, flash, start, oldest, j, cap, size);
      }
    }

    /** A collection that a power cut interrupted is resumed; it then collects every dirty sector. */
    method ResumeGc(ghost p: Promise) returns (ghost starved: bool)
      requires Base() && CacheBase() && Quiet(flash, steady) && Recoverable(flash, cap, p) && inRecovery
      requires !gcRequest && marked == {} && p.reserve == 0
      modifies this`flash, this`hist, this`lastIsCompleteDel, this`gcRequest, this`oldest, this`marked, kvCache, sectorCache
      ensures Base() && CacheBase() && Quiet(flash, steady) && !gcRequest && marked == {}
      ensures Recoverable(flash, cap, Losing(p, Lost(old(flash), flash)))
      ensures Ran(old(hist), hist, cap, Losing(p, Lost(old(flash), flash)))
      ensures Resumed(old(flash), flash, old(oldest), |flash|, cap, starved)
      ensures NoGc(old(flash)) || EmptyCount(old(flash)) > GC_EMPTY_THRESHOLD ==> flash == old(flash) && oldest == old(oldest)
      ensures !NoGc(old(flash)) && EmptyCount(old(flash)) <= GC_EMPTY_THRESHOLD ==>
                && NothingDirty(flash)
                && Stopped(old(flash), flash, old(oldest), oldest, cap, DbSize(|flash|, cap))
      // with an EMPTY sector, or with room elsewhere for the first sector to collect, nothing is refused
      ensures SafeResume(old(flash), old(oldest), cap) ==> !starved
      ensures !NoGc(old(flash)) ==> FaredAll(old(flash), flash, old(oldest), cap, starved)
      ensures EmptyCount(flash) > 0 || (flash == old(flash) && NoGc(old(flash)))
      ensures !starved && !old(lastIsCompleteDel) ==> !lastIsCompleteDel
      ensures !starved && CacheOk(old(flash), old(kvCache[..]), {}) ==> CacheOk(flash, kvCache[..], {})
    {
      hide *;
      BaseHas();
      starved := false;
      ghost var f0, h0, o0, c0, last := flash, hist, oldest, kvCache[..], lastIsCompleteDel;
      RanNot(h0, cap, p);
      LostNone(f0, f0, p);
      ResumedStart(f0, o0, cap);
      ResumingStart(f0, o0, cap);
      var start, n := oldest, |flash|;
      var size := DbSize(n, cap);
      FinishedStart(f0, o0, cap, size);
      for j := 0 to n
        invariant Base() && CacheBase() && Quiet(flash, steady) && |flash| == n && !gcRequest && marked == {} && inRecovery
        invariant Recoverable(flash, cap, Losing(p, Lost(f0, flash))) && Ran(h0, hist, cap, Losing(p, Lost(f0, flash)))
        invariant Resumed(f0, flash, start, j, cap, starved) && Finished(f0, flash, start, oldest, j, cap, size)
        invariant Resuming(f0, flash, start, oldest, j, cap, starved)
        invariant !starved && CacheOk(f0, c0, {}) ==> CacheOk(flash, kvCache[..], {})
        invariant !starved && !last ==> !lastIsCompleteDel
      {
        ghost var more := ResumeAt(start, j, size, f0, h0, starved, p);
        starved := starved || more;
      }
      ResumingEnd(f0, flash, start, oldest, cap, starved);
      FinishedEnd(f0, flash, start, oldest, cap, size);
      ResumedNothing(f0, flash, start, n, cap, starved);
      NotStarved(f0, flash, start, cap, starved);
    }

    method RequestGc()
      requires CacheBase()
      modifies this`gcRequest
      ensures CacheBase() && gcRequest
    {
      hide Coherent;
      gcRequest := true;
    }

    /** One walk over all records: resolve the pending ones, and stop at the first record whose
        programming was cut, or at a pending one that finds no room. */
    method RecoverPass(ghost p: Promise) returns (res: Pass)
      requires Base() && CacheBase() && Quiet(flash, steady) && Recoverable(flash, cap, p) && inRecovery && !gcRequest
      requires p.reserve <= 1
      modifies this`flash, this`hist, this`lastIsCompleteDel, this`gcRequest, kvCache, sectorCache
      ensures Base() && CacheBase() && Quiet(flash, steady) && Recoverable(flash, cap, p) && Ran(old(hist), hist, cap, p)
      ensures CacheOk(old(flash), old(kvCache[..]), {}) ==> CacheOk(flash, kvCache[..], {})
      ensures !old(lastIsCompleteDel) ==> !lastIsCompleteDel
      ensures PassOutcome(old(flash), flash, oldest, false, cap, res)
      ensures gcRequest <==> res.StarvedAt? && 0 < EmptyCount(flash) <= GC_EMPTY_THRESHOLD
    {
      hide *;
      BaseHas();
      ghost var f0, h0, c0, last := flash, hist, kvCache[..], lastIsCompleteDel;
      RanNot(h0, cap, p);
      PassingStart(f0, oldest, false, cap);
      var j, n := 0, |flash|;
      while j < n
        invariant j <= n && |flash| == n && oldest < n
        invariant Base() && CacheBase() && Quiet(flash, steady) && Recoverable(flash, cap, p) && Ran(h0, hist, cap, p)
        invariant inRecovery && !gcRequest && (!last ==> !lastIsCompleteDel)
        invariant CacheOk(f0, c0, {}) ==> CacheOk(flash, kvCache[..], {})
        invariant Passing(f0, flash, oldest, false, cap, j, 0)
      {
        var s := SectorAt(oldest, j, n);
        var i := 0;
        var sector := ReadSector(s, false);
        if sector.Some? && sector.value.store in {STORE_USING, STORE_FULL} {
          while i < |flash[s].recs|
            invariant |flash| == n && oldest < n
            invariant Base() && CacheBase() && Quiet(flash, steady) && Recoverable(flash, cap, p) && Ran(h0, hist, cap, p)
            invariant inRecovery && !gcRequest && (!last ==> !lastIsCompleteDel)
            invariant CacheOk(f0, c0, {}) ==> CacheOk(flash, kvCache[..], {})
            invariant Passing(f0, flash, oldest, false, cap, j, i)
            decreases if i < |f0[s].recs| then |f0[s].recs| - i else 0, |flash[s].recs| - i
          {
            ghost var h1 := hist;
            var stop := RecoverKv(s, i, f0, j, p);
            RanOn(h0, h1, hist, cap, p);
            if stop.Some? {
              return stop.value;
            }
            i := i + 1;
          }
        } else {
          BaseHas();
          NoRecords(flash, cap, s);
        }
        PassingSector(f0, flash, oldest, false, cap, j, i);
        j := j + 1;
      }
      PassDone(f0, flash, oldest, cap);
      return Done;
    }

    /** `check_and_recovery_kv_cb` for one record. */
    method RecoverKv(s: nat, i: nat, ghost f0: Flash, ghost j: nat, ghost p: Promise) returns (stop: Option<Pass>)
      requires Base() && CacheBase() && Quiet(flash, steady) && Recoverable(flash, cap, p) && inRecovery && !gcRequest
      requires |flash| == |f0| && j < |f0| && s == SectorAt(oldest, j, |f0|) && i < |flash[s].recs|
      requires Passing(f0, flash, oldest, false, cap, j, i)
      requires p.reserve <= 1
      modifies this`flash, this`hist, this`lastIsCompleteDel, this`gcRequest, kvCache, sectorCache
      ensures Base() && CacheBase() && Quiet(flash, steady) && Recoverable(flash, cap, p) && Ran(old(hist), hist, cap, p)
      ensures CacheOk(old(flash), old(kvCache[..]), {}) ==> CacheOk(flash, kvCache[..], {})
      ensures !old(lastIsCompleteDel) ==> !lastIsCompleteDel
      ensures stop.None? ==> |flash| == |f0| && Passing(f0, flash, oldest, false, cap, j, i + 1) && !gcRequest
      ensures stop.None? ==> |flash[s].recs| >= |old(flash)[s].recs|
      ensures stop.None? && i >= |f0[s].recs| ==> |flash[s].recs| == |old(flash)[s].recs|
      ensures stop.Some? ==> PassOutcome(f0, flash, oldest, false, cap, stop.value)
      ensures stop.Some? ==> (gcRequest <==> stop.value.StarvedAt? && 0 < EmptyCount(flash) <= GC_EMPTY_THRESHOLD)
      // the load fills the name table with the live records as it comes to them
      ensures Live(old(flash), Addr(s, i)) ==>
                && flash == old(flash) && stop.None?
                && exists slot: nat ::
                     Mapped(old(kvCache[..]), kvCache[..], NameCrc(old(flash)[s].recs[i].key), Addr(s, i), slot)
      ensures !Kept(old(flash), Addr(s, i)) ==> kvCache[..] == old(kvCache[..])
    {
      hide NameCrc;
      hide Mapped;
      hide FlashOk;
      hide NorRun;
      hide KeptRun;
      hide Keeps;
      hide Ran;
      hide Quiet;
      hide CacheOk;
      hide Passing;
      hide EmptyCount;
      hide Choose;
      hide Coherent;
      hide PendingDirty;
      stop := None;
      ghost var f1, h1 := flash, hist;
      RanNot(h1, cap, p);
      var a, kv := Addr(s, i), flash[s].recs[i];
      PassingHere(f0, f1, oldest, false, cap, j, i);
      KeptNeeds(f1, cap, a);
      if kv.crcOk && kv.status == PRE_DELETE {
        var ok := MoveKv(a, kv, p);
        if !ok {
          return Some(StarvedAt(a));
        }
        MoveFrame(f1, flash, a, oldest, false, cap, true, true);
        MoveLives(f1, flash, a, oldest, false, cap, true);
        PassingMove(f0, f1, flash, oldest, false, cap, j, i);
        FrameLengths(f1, flash, a);
      } else if kv.status == PRE_WRITE && (i == 0 || kv.hdr) {
        GiveUp(a, p);
        return Some(TornAt(a));
      } else {
        if kv.crcOk && kv.status == WRITE {
          ghost var c := kvCache[..];
          UpdateKvCache(kvCache, NameCrc(kv.key), Some(a));
          ghost var slot: nat :| Mapped(c, kvCache[..], NameCrc(kv.key), a, slot);
          if CacheOk(flash, c, {}) {
            CacheMapped(flash, c, kvCache[..], {}, NameCrc(kv.key), a, slot);
            assert {} - {NameCrc(kv.key)} == {};
          }
        }
        PassingSkip(f0, f1, oldest, false, cap, j, i);
      }
    }

    /** ERR_HDR over a record whose programming was cut. */
    method GiveUp(a: Addr, ghost p: Promise)
      requires Base() && CacheBase() && Quiet(flash, steady) && Recoverable(flash, cap, p)
      requires In(flash, a) && At(flash, a).status == PRE_WRITE && (a.idx == 0 || At(flash, a).hdr)
      modifies this`flash, this`hist
      ensures Base() && CacheBase() && Quiet(flash, steady) && Recoverable(flash, cap, p) && Ran(old(hist), hist, cap, p)
      ensures flash == WithStatus(old(flash), a, ERR_HDR) && Torn(old(flash), a) && hist == old(hist) + [flash]
      ensures CacheOk(old(flash), kvCache[..], {}) ==> CacheOk(flash, kvCache[..], {})
    {
      hide *;
      BaseHas();
      CacheBaseHas();
      GiveUpStep(flash, cap, a, p, steady);
      StatusCoherent(flash, cap, sectorCache[..], marked, a, ERR_HDR);
      GiveUpCached(flash, a, kvCache[..]);
      GuardStatus(flash, a, ERR_HDR, steady);
      Program(WithStatus(flash, a, ERR_HDR), p);
      CacheBaseIs();
    }

    /** The part of initialization before the walks.  On a cold start they begin with the first sector. */
    method Prepare(ghost p: Promise)
      requires Base() && Tables() && marked == {} && Recoverable(flash, cap, p) && CalmBy(flash, steady)
      requires p.reserve == 0 && (Zeroed(sectorCache[..]) || Coherent(flash, cap, sectorCache[..], {}))
      modifies this`flash, this`hist, this`gcRequest, this`oldest, this`inRecovery, this`marked, kvCache, sectorCache
      ensures Base() && CacheBase() && Quiet(flash, steady) && inRecovery && !gcRequest && marked == {}
      ensures Recoverable(flash, cap, p) && Ran(old(hist), hist, cap, p)
      ensures CacheOk(flash, kvCache[..], {}) && flash == AtBoot(old(flash))
      ensures Zeroed(old(sectorCache[..])) ==> oldest == 0
      ensures Coherent(old(flash), cap, old(sectorCache[..]), {}) && (forall s: nat :: s < |old(flash)| ==> old(flash)[s].ok) ==>
                IsOldest(old(flash), oldest)
    {
      hide *;
      BaseHas();
      ghost var f0, h0 := flash, hist;
      gcRequest, inRecovery := false, false;
      var o := FindOldest();
      OldestOrFirst(flash, cap, old(sectorCache[..]), o);
      StartAt(o);
      ResetCache();
      inRecovery := true;
      assert 0 < |f0| && (f0[0].ok || !f0[0].ok);
      var failed := CheckSectorHeaders(false, p);
      ghost var h1, f1, c1 := hist, flash, kvCache[..];
      SameRecsFormatted(f0, f1, cap);
      HeaderCalm(f0, f1, steady);
      BaseHas();
      SettleSectors(p);
      BaseHas();
      RanOn(h0, h1, hist, cap, p);
      BootIs(f0, f1, flash);
      ClearedIsOk(flash, kvCache[..]);
    }

    method StartAt(o: nat)
      requires Base() && Tables() && o < |flash|
      modifies this`oldest
      ensures Base() && Tables() && oldest == o
    {
      hide FlashOk; hide NorRun; hide KeptRun; hide Coherent;
      oldest := o;
    }

    /** A pass leaves the last EMPTY sector alone. */
    method RecoverKeeping(ghost p: Promise) returns (res: Pass)
      requires Base() && CacheBase() && Quiet(flash, steady) && Recoverable(flash, cap, p) && inRecovery && !gcRequest
      requires p.reserve == 0
      modifies this`flash, this`hist, this`lastIsCompleteDel, this`gcRequest, kvCache, sectorCache
      ensures Base() && CacheBase() && Quiet(flash, steady) && Recoverable(flash, cap, p) && Ran(old(hist), hist, cap, p)
      ensures CacheOk(old(flash), old(kvCache[..]), {}) ==> CacheOk(flash, kvCache[..], {})
      ensures !old(lastIsCompleteDel) ==> !lastIsCompleteDel
      ensures PassOutcome(old(flash), flash, oldest, false, cap, res)
      ensures gcRequest <==> res.StarvedAt? && 0 < EmptyCount(flash) <= GC_EMPTY_THRESHOLD
      ensures EmptyCount(old(flash)) > 0 ==> EmptyCount(flash) > 0
      ensures oldest < |old(flash)| && PassEffect(old(flash), flash, oldest, cap, res)
    {
      hide *;
      BaseHas();
      ghost var f0, h0, q := flash, hist, p.(reserve := if EmptyCount(flash) > 0 then 1 else 0);
      KeepReserve(flash, cap, p, q.reserve);
      res := RecoverPass(q);
      KeptReserve(flash, cap, p, q.reserve);
      RanWithoutReserve(h0, hist, cap, q);
      assert q.(reserve := 0) == p;
      BaseHas();
      PassHas(f0, flash, oldest, cap, res);
    }

    /** The walk of `_fdb_kv_load` and its retries.  A retry only happens with a sector in reserve, so
        the collections here lose nothing. */
    method Retry(fuel: nat, ghost p: Promise) returns (res: Pass, ghost walk: Flash)
      requires Base() && CacheBase() && Quiet(flash, steady) && Recoverable(flash, cap, p) && inRecovery && !gcRequest
      requires marked == {} && p.reserve == 0
      modifies this`flash, this`hist, this`lastIsCompleteDel, this`gcRequest, this`oldest, this`marked, kvCache, sectorCache
      ensures Base() && CacheBase() && Quiet(flash, steady) && marked == {}
      ensures Recoverable(flash, cap, p) && Ran(old(hist), hist, cap, p)
      ensures oldest < |walk| && PassOutcome(walk, flash, oldest, false, cap, res)
      ensures fuel == 0 ==> walk == old(flash)
      ensures StoredKeys(flash) == StoredKeys(old(flash))
      ensures forall b :: Torn(flash, b) ==> Torn(old(flash), b) && res != TornAt(b)
      ensures res.TornAt? ==> Torn(old(flash), res.at)
      ensures |PendSet(flash)| <= |PendSet(old(flash))|
      ensures EmptyCount(old(flash)) > 0 ==> EmptyCount(flash) > 0
      ensures !old(lastIsCompleteDel) ==> !lastIsCompleteDel
      ensures CacheOk(old(flash), old(kvCache[..]), {}) ==> CacheOk(flash, kvCache[..], {})
      // one retry is enough if a collection can get at every pending record
      ensures PendingDirty(old(flash)) ==> PendingDirty(flash)
      ensures PendingDirty(old(flash)) && fuel > 0 ==> !gcRequest
      ensures EmptyCount(flash) > 0 && !gcRequest ==> !res.StarvedAt?
      ensures EmptyCount(flash) > 0 || (NoGc(old(flash)) ==> NoGc(flash))
      // no retry is needed if the only pending record finds room
      ensures RoomyPending(old(flash), cap) ==> !gcRequest && RoomyPending(flash, cap)
      // with as many retries as there are pending records, the walk ends if and only if it is not stuck
      ensures fuel > |PendSet(old(flash))| ==> (gcRequest <==> Stuck(walk, oldest, cap))
      ensures NothingDirty(old(flash)) && OnePending(old(flash)) ==>
                (gcRequest <==> Stuck(old(flash), old(oldest), cap))
    {
      hide *;
      ghost var f0, h0, o0, c0, last := flash, hist, oldest, kvCache[..], lastIsCompleteDel;
      var left := fuel;
      BaseHas();
      walk := flash;
      res := RecoverKeeping(p);
      RetryStart(f0, flash, oldest, cap, res, gcRequest, fuel);
      while gcRequest && left > 0
        invariant Base() && CacheBase() && Quiet(flash, steady) && inRecovery && marked == {}
        invariant Recoverable(flash, cap, p) && Ran(h0, hist, cap, p)
        invariant oldest < |walk| && PassOutcome(walk, flash, oldest, false, cap, res)
        invariant gcRequest <==> res.StarvedAt? && 0 < EmptyCount(flash) <= GC_EMPTY_THRESHOLD
        invariant 0 <= left <= fuel && (left == fuel ==> walk == f0)
        invariant Retrying(f0, o0, walk, flash, oldest, cap, res, gcRequest, fuel, left)
        invariant !last ==> !lastIsCompleteDel
        invariant EmptyCount(f0) > 0 ==> EmptyCount(flash) > 0
        invariant CacheOk(f0, c0, {}) ==> CacheOk(flash, kvCache[..], {})
        decreases left
      {
        ghost var h1, f1, w1, r1, o1 := hist, flash, walk, res, oldest;
        BaseHas();
        ghost var starved := GcCollectByFreeSize(DbSize(|flash|, cap), p);
        ghost var f2 := flash;
        RetryGc(f1, f2, starved, p);
        RanOn(h0, h1, hist, cap, p);
        ghost var h2 := hist;
        walk := flash;
        BaseHas();
        res := RecoverKeeping(p);
        RanOn(h0, h2, hist, cap, p);
        RetryNext(f0, o0, w1, f1, o1, r1, f2, flash, oldest, cap, res, starved, gcRequest, fuel, left);
        left := left - 1;
      }
      RetryEnd(f0, o0, walk, flash, oldest, cap, res, gcRequest, fuel, left);
    }

    /** The end of a load that needs no more retries. */
    method FinishLoad(ghost p: Promise)
      requires Base() && CacheBase() && Quiet(flash, steady) && marked == {} && Recoverable(flash, cap, p) && !gcRequest
      modifies this`inRecovery, this`model
      ensures Base() && CacheBase() && !inRecovery && model == View(flash)
      ensures CacheOk(flash, kvCache[..], {}) && !lastIsCompleteDel && Usable(flash, names) ==> Valid()
    {
      hide *;
      inRecovery := false;
      model := View(flash);
      ViewIsReads(flash, cap, p);
      if CacheOk(flash, kvCache[..], {}) && !lastIsCompleteDel && Usable(flash, names) {
        UsableHas(flash, names);
        NowValid();
      }
    }

    /** `fdb_kvdb_init` with `_fdb_kv_load`, over the zeros of a cold start or the tables that the database has left.
        The load retries its walk as long as a collection has been requested; `fuel` bounds the retries, and `done` says
        whether it came to an end.  `start` is the sector that its walks begin with. */
    method Load(fuel: nat, ghost p: Promise)
      returns (done: bool, res: Pass, ghost starved: bool, ghost walk: Flash, ghost start: nat)
      requires Base() && Tables() && marked == {} && CalmBy(flash, steady) && !lastIsCompleteDel
      requires Zeroed(sectorCache[..]) || Coherent(flash, cap, sectorCache[..], {})
      requires Recoverable(flash, cap, p) && p.reserve == 0
      modifies this`flash, this`hist, this`lastIsCompleteDel, this`gcRequest, this`oldest, this`inRecovery, this`marked
      modifies this`model, kvCache, sectorCache
      ensures Base() && CacheBase() && Quiet(flash, steady) && marked == {}
      // on a cold start the oldest sector is not found
      ensures start < |old(flash)| && (Zeroed(old(sectorCache[..])) ==> start == 0)
      ensures Coherent(old(flash), cap, old(sectorCache[..]), {}) && (forall s: nat :: s < |old(flash)| ==> old(flash)[s].ok) ==>
                IsOldest(old(flash), start)
      // exactly the keys are lost that no record stores any more
      ensures Recoverable(flash, cap, Losing(p, Lost(old(flash), flash)))
      ensures Ran(old(hist), hist, cap, Losing(p, Lost(old(flash), flash)))
      ensures StoredKeys(flash) <= StoredKeys(old(flash))
      // a power cut never costs a key while an EMPTY sector is in reserve at boot
      ensures EmptyCount(old(flash)) > 0 ==> !starved && EmptyCount(flash) > 0
      ensures !starved ==> Lost(old(flash), flash) == {}
      // nor while the first sector to collect finds room elsewhere; and if it does not, that does cost a key
      ensures SafeAtBoot(old(flash), start, cap) ==> !starved
      ensures !NoGc(old(flash)) ==> Costs(AtBoot(old(flash)), start, cap, Lost(old(flash), flash))
      ensures forall s: nat :: CutShort(AtBoot(old(flash)), s, cap) ==>
                s < |old(flash)| && StoredKeys(flash) == StoredKeys(AtBoot(old(flash))[s := FORMATTED])
      // the next boot finds nothing to lose
      ensures EmptyCount(flash) > 0 || NoGc(flash)
      ensures Spare(old(flash)) ==> EmptyCount(flash) > 0
      // how the walk ended, and what it found
      ensures oldest < |walk| && PassOutcome(walk, flash, oldest, false, cap, res)
      ensures NoGc(old(flash)) && fuel == 0 ==> walk == AtBoot(old(flash))
      ensures TornSet(flash) <= TornSet(old(flash))
      ensures res.TornAt? ==> TornSet(flash) < TornSet(old(flash))
      ensures |PendSet(flash)| <= |PendSet(old(flash))|
      // one retry is enough if a collection can get at every pending record, and none is needed if the only one finds room
      ensures PendingDirty(old(flash)) ==> PendingDirty(flash)
      ensures PendingDirty(old(flash)) && fuel > 0 ==> done
      ensures RoomyPending(AtBoot(old(flash)), cap) ==> done && RoomyPending(flash, cap)
      ensures EmptyCount(flash) > 0 && done ==> !res.StarvedAt?
      // in general the retries end if and only if the walk does not get stuck
      ensures fuel > |PendSet(old(flash))| ==> (done <==> !Stuck(walk, oldest, cap))
      ensures NothingDirty(old(flash)) && OnePending(old(flash)) ==> (done <==> !Stuck(AtBoot(old(flash)), start, cap))
      // a load that ends with nothing pending is ready for use
      ensures done ==> !inRecovery && !gcRequest && model == View(flash)
      ensures done && !starved && Usable(flash, names) ==> Valid()
    {
      hide *;
      ghost var f0, h0 := flash, hist;
      BaseHas();
      Prepare(p);
      BaseHas();
      ghost var f1, h1 := flash, hist;
      start := oldest;
      BootFacts(f0, cap);
      BootHeaders(f0, cap);
      RoomyNoGc(f1, cap);
      starved := ResumeGc(p);
      BaseHas();
      ghost var h2, f2 := hist, flash;
      ResumedEnd(f0, f1, f2, start, cap, starved);
      RanLosing(h0, h1, cap, p, Lost(f0, f2));
      RanOn(h0, h1, hist, cap, Losing(p, Lost(f0, f2)));
      LosingTwice(p, Lost(f0, f2), {});
      res, walk := Retry(fuel, Losing(p, Lost(f0, f2)));
      RanOn(h0, h2, hist, cap, Losing(p, Lost(f0, f2)));
      SameLostKeys(f0, f2, flash);
      done := !gcRequest;
      LoadTorn(f0, f2, flash, res);
      if NothingDirty(f0) {
        QuietNoGc(f0);
      }
      if done {
        FinishLoad(Losing(p, Lost(f0, flash)));
      }
    }
  }
}
