/**
 What one program or one sector erase may do to the content of a NOR flash: programming clears bits
 and never sets them, so a status only moves up its table, a record field is written once, and only
 an erase takes anything back.  One program is one status, one sector header, or one run of bytes of a record.
 */
module KvDevice {
  import opened FdbDef
  import opened KvFlash

  /** Either the status goes up, or bytes behind the status are programmed. */
  predicate RecClears(r: Rec, q: Rec) {
    && r.status.Rank() <= q.status.Rank()
    && (q.status == r.status || q == r.(status := q.status))
    && (r.hdr ==> q.hdr && q.len == r.len)
    && r.key <= q.key
    && (r.value != [] ==> r.key == q.key && r.value <= q.value)
    && (r.crcOk ==> q == r.(status := q.status))
  }

  /** A program of the sector header: the whole of it, or one of its two statuses. */
  predicate HeaderClears(x: Sector, y: Sector) {
    && y.recs == x.recs && (x.ok ==> y.ok)
    && x.store.Rank() <= y.store.Rank() && x.dirty.Rank() <= y.dirty.Rank()
    && (x.ok ==> y.store == x.store || y.dirty == x.dirty)
  }

  /** A program of one record, or the status byte of a new one. */
  predicate RecordClears(x: Sector, y: Sector) {
    && y == x.(recs := y.recs) && |x.recs| <= |y.recs| <= |x.recs| + 1
    && (forall i :: 0 <= i < |x.recs| ==> RecClears(x.recs[i], y.recs[i]))
    && (forall i, j :: 0 <= i < j < |x.recs| ==> y.recs[i] == x.recs[i] || y.recs[j] == x.recs[j])
    && (|y.recs| > |x.recs| ==> y.recs[..|x.recs|] == x.recs && !y.recs[|x.recs|].hdr)
  }

  predicate SectorClears(x: Sector, y: Sector) { HeaderClears(x, y) || RecordClears(x, y) }

  /** One erase or one program: only one sector changes. */
  predicate NorStep(f: Flash, g: Flash) {
    && |f| == |g|
    && (forall s: nat :: s < |f| ==> g[s] == ERASED || SectorClears(f[s], g[s]))
    && (forall s: nat, t: nat :: s < t < |f| ==> g[s] == f[s] || g[t] == f[t])
  }

  ghost predicate NorRun(h: seq<Flash>) {
    forall i :: 0 < i < |h| ==> NorStep(h[i - 1], h[i])
  }

  lemma {:induction false} RunSize(h: seq<Flash>, at: nat)
    requires NorRun(h) && at < |h|
    ensures |h[at]| == |h[|h| - 1]|
    decreases |h| - at
  {
    if at < |h| - 1 {
      RunSize(h, at + 1);
      assert NorStep(h[at], h[at + 1]);
    }
  }

  /** A step changes one sector. */
  lemma SectorStep(f: Flash, cap: nat, s: nat, x: Sector)
    requires FlashOk(f, cap) && s < |f| && SectorOk(x, cap) && (x == ERASED || SectorClears(f[s], x))
    ensures FlashOk(f[s := x], cap) && NorStep(f, f[s := x])
  {
    hide SectorOk;
    hide SectorClears;
    forall t: nat | t < |f| ensures f[s := x][t] == ERASED || SectorClears(f[t], f[s := x][t]) {
      SectorSame(f[t]);
    }
  }

  lemma SectorSame(x: Sector)
    ensures SectorClears(x, x)
  {
  }

  lemma StepStatus(f: Flash, cap: nat, a: Addr, st: KvStatus)
    requires FlashOk(f, cap) && In(f, a) && st != UNUSED
    requires At(f, a).status.Rank() <= st.Rank()
    requires st in {WRITE, PRE_DELETE, DELETED} ==> At(f, a).crcOk
    ensures FlashOk(WithStatus(f, a, st), cap) && NorStep(f, WithStatus(f, a, st))
  {
    hide NorStep;
    SpaceOfStatus(f[a.sec].recs, a.idx, st);
    assert SectorOk(f[a.sec], cap);
    SectorStep(f, cap, a.sec, f[a.sec].(recs := f[a.sec].recs[a.idx := At(f, a).(status := st)]));
  }

  lemma AppendOk(x: Sector, cap: nat, r: Rec)
    requires SectorOk(x, cap) && x.ok && x.store == STORE_USING && RecOk(r, x.recs == [])
    requires Free(x.recs) + KV_HDR + REMAIN_THRESHOLD < cap && Free(x.recs) + r.len + REMAIN_THRESHOLD < cap
    requires r.crcOk ==> Takes(x.recs, r)
    ensures SectorOk(x.(recs := x.recs + [r]), cap) && (!r.hdr ==> SectorClears(x, x.(recs := x.recs + [r])))
  {
    hide Free; hide Apart; hide Takes; hide Used;
    FreeGrows(x.recs, r);
    SpaceGrows(x.recs, r);
  }

  lemma StepNew(f: Flash, cap: nat, s: nat, r: Rec)
    requires FlashOk(f, cap) && s < |f| && f[s].ok && f[s].store == STORE_USING && RecOk(r, f[s].recs == []) && !r.hdr
    requires Free(f[s].recs) + KV_HDR + REMAIN_THRESHOLD < cap && Free(f[s].recs) + r.len + REMAIN_THRESHOLD < cap
    requires r.crcOk ==> Takes(f[s].recs, r)
    ensures FlashOk(WithNew(f, s, r), cap) && NorStep(f, WithNew(f, s, r))
  {
    hide NorStep;
    AppendOk(f[s], cap, r);
    SectorStep(f, cap, s, f[s].(recs := f[s].recs + [r]));
  }

  /** A status in the header of a sector in use. */
  lemma StepHeader(f: Flash, cap: nat, s: nat, store: Store, dirty: Dirty)
    requires FlashOk(f, cap) && s < |f| && f[s].ok
    requires store == STORE_USING && f[s].dirty.Rank() <= dirty.Rank() && (store == f[s].store || dirty == f[s].dirty)
    ensures FlashOk(f[s := f[s].(store := store, dirty := dirty)], cap)
    ensures NorStep(f, f[s := f[s].(store := store, dirty := dirty)])
  {
    hide NorStep;
    assert SectorOk(f[s], cap);
    SectorStep(f, cap, s, f[s].(store := store, dirty := dirty));
  }

  lemma StepErase(f: Flash, cap: nat, s: nat)
    requires FlashOk(f, cap) && s < |f|
    ensures FlashOk(f[s := ERASED], cap) && NorStep(f, f[s := ERASED])
  {
    hide NorStep;
    assert SectorOk(f[s], cap);
    SectorStep(f, cap, s, ERASED);
  }

  lemma StepFormat(f: Flash, cap: nat, s: nat)
    requires FlashOk(f, cap) && s < |f| && f[s] == ERASED
    ensures FlashOk(f[s := FORMATTED], cap) && NorStep(f, f[s := FORMATTED])
  {
    hide NorStep;
    assert SectorOk(f[s], cap);
    SectorStep(f, cap, s, FORMATTED);
  }

  /** Rewriting the record appended last. */
  lemma Refilled(f: Flash, t: nat, r: Rec, q: Rec)
    requires t < |f|
    ensures WithRec(WithNew(f, t, r), Addr(t, |f[t].recs|), q) == WithNew(f, t, q)
  {
    var g := WithNew(f, t, r);
    assert g[t].recs[|f[t].recs| := q] == f[t].recs + [q];
    assert WithRec(g, Addr(t, |f[t].recs|), q)[t] == WithNew(f, t, q)[t];
  }

  /** Programming a field of the record that is being written. */
  lemma StepFill(f: Flash, cap: nat, t: nat, r: Rec, q: Rec)
    requires t < |f| && FlashOk(f, cap) && f[t].ok && f[t].store == STORE_USING
    requires RecOk(q, f[t].recs == []) && RecClears(r, q) && q.hdr && Free(f[t].recs) + q.len + REMAIN_THRESHOLD < cap
    requires q.crcOk ==> Takes(f[t].recs, q)
    ensures FlashOk(WithNew(f, t, q), cap) && NorStep(WithNew(f, t, r), WithNew(f, t, q))
  {
    hide Free; hide Apart; hide Takes;
    AppendOk(f[t], cap, q);
    hide RecClears;
    var x, y := WithNew(f, t, r), WithNew(f, t, q);
    assert FlashOk(y, cap) by {
      hide SectorOk;
      assert forall s: nat :: s < |f| ==> SectorOk(f[s], cap);
    }
    forall s: nat | s < |f| ensures y[s] == ERASED || SectorClears(x[s], y[s]) {
      SectorSame(f[s]);
    }
  }
}
