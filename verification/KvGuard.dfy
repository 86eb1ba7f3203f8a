/**
 What every single step of the database keeps, whatever operation it belongs to: a traversal goes on counting all
 that is programmed, but for the one step after the first byte of a record, and a boot will find an EMPTY sector.
 */
module KvGuard {
  import opened FdbDef
  import opened KvEffects
  import opened KvFlash

  /** Behind records that are all counted a status byte has been put, and nothing more yet. */
  predicate JustBegun(recs: seq<Rec>) {
    |recs| > 1 && !recs[|recs| - 1].hdr && Used(recs[..|recs| - 1]) == Free(recs[..|recs| - 1])
  }

  ghost predicate LeftBare(f: Flash) {
    exists t: nat :: t < |f| && JustBegun(f[t].recs)
                     && forall s: nat :: s < |f| && s != t ==> Used(f[s].recs) == Free(f[s].recs)
  }

  ghost predicate NearlySteady(f: Flash) { Steady(f) || LeftBare(f) }

  /** A boot will find an EMPTY sector, or make one: by formatting a sector without a header, or by resuming a
      collection. */
  ghost predicate Spare(f: Flash) { EmptyCount(f) > 0 || !NoGc(f) || exists s: nat :: s < |f| && !f[s].ok }

  ghost predicate Guarded(f: Flash, g: Flash, steady: bool) {
    (Spare(f) ==> Spare(g)) && (steady && NearlySteady(f) ==> NearlySteady(g))
  }

  ghost predicate KeptRun(h: seq<Flash>, steady: bool) {
    && (forall j :: 0 < j < |h| && Spare(h[j - 1]) ==> Spare(h[j]))
    && (steady ==> forall j :: 0 <= j < |h| ==> NearlySteady(h[j]))
  }

  lemma KeptRunOn(h: seq<Flash>, g: Flash, steady: bool)
    requires h != [] && KeptRun(h, steady) && Guarded(h[|h| - 1], g, steady)
    ensures KeptRun(h + [g], steady)
  {
    hide Spare; hide NearlySteady;
  }

  lemma {:induction false} SpareFrom(h: seq<Flash>, steady: bool, i: nat, j: nat)
    requires KeptRun(h, steady) && i <= j < |h| && Spare(h[i])
    ensures Spare(h[j])
  {
    if i < j {
      hide Spare;
      SpareFrom(h, steady, i, j - 1);
    }
  }

  // ---------------------------------------------------------------- the steps

  lemma BareOne(f: Flash) returns (t: nat)
    requires LeftBare(f)
    ensures t < |f| && JustBegun(f[t].recs)
    ensures forall s: nat :: s < |f| && s != t ==> Used(f[s].recs) == Free(f[s].recs)
  {
    hide Used; hide Free;
    t :| t < |f| && JustBegun(f[t].recs) && forall s: nat :: s < |f| && s != t ==> Used(f[s].recs) == Free(f[s].recs);
  }

  /** Every record counts as before, and the headers say what they said. */
  lemma GuardSame(f: Flash, g: Flash, steady: bool)
    requires |g| == |f| && EmptyCount(g) == EmptyCount(f)
    requires forall s: nat :: s < |f| ==> g[s].ok == f[s].ok && (f[s].dirty == DIRTY_GC ==> g[s].dirty == DIRTY_GC)
    requires forall s: nat :: s < |f| ==> SameSpace(f[s].recs, g[s].recs)
    ensures Guarded(f, g, steady)
  {
    hide EmptyCount; hide Used; hide Free;
    if LeftBare(f) {
      var t := BareOne(f);
      assert JustBegun(g[t].recs);
    }
    if Spare(f) && EmptyCount(f) == 0 {
      var s: nat :| s < |f| && (!f[s].ok || f[s].dirty == DIRTY_GC);
      assert !g[s].ok || g[s].dirty == DIRTY_GC;
    }
  }

  predicate SameSpace(p: seq<Rec>, q: seq<Rec>) {
    Used(p) == Used(q) && Free(p) == Free(q) && (JustBegun(p) ==> JustBegun(q))
  }

  lemma StatusSameSpace(recs: seq<Rec>, i: nat, st: KvStatus)
    requires i < |recs|
    ensures SameSpace(recs, recs[i := recs[i].(status := st)])
  {
    hide Used; hide Free; hide Apart;
    var more, n := recs[i := recs[i].(status := st)], |recs| - 1;
    SpaceOfStatus(recs, i, st);
    if i < n {
      SpaceOfStatus(recs[..n], i, st);
      assert more[..n] == recs[..n][i := recs[i].(status := st)];
    } else {
      assert more[..n] == recs[..n];
    }
  }

  lemma GuardStatus(f: Flash, a: Addr, st: KvStatus, steady: bool)
    requires In(f, a)
    ensures Guarded(f, WithStatus(f, a, st), steady)
  {
    hide EmptyCount; hide Used; hide Free; hide SameSpace; hide Guarded;
    CountRec(f, a, At(f, a).(status := st));
    StatusSameSpace(f[a.sec].recs, a.idx, st);
    forall s: nat | s < |f| ensures SameSpace(f[s].recs, WithStatus(f, a, st)[s].recs) {
      SpaceIsSame(f[s].recs);
    }
    GuardSame(f, WithStatus(f, a, st), steady);
  }

  lemma SpaceIsSame(recs: seq<Rec>)
    ensures SameSpace(recs, recs)
  {
  }

  /** A dirty mark. */
  lemma GuardDirty(f: Flash, s: nat, dirty: Dirty, steady: bool)
    requires s < |f| && (f[s].dirty == DIRTY_GC ==> dirty == DIRTY_GC)
    ensures Guarded(f, f[s := f[s].(dirty := dirty)], steady)
  {
    hide EmptyCount; hide Used; hide Free; hide SameSpace; hide Guarded;
    var g := f[s := f[s].(dirty := dirty)];
    EmptyCountUpdate(f, s, g[s]);
    forall u: nat | u < |f| ensures SameSpace(f[u].recs, g[u].recs) {
      SpaceIsSame(f[u].recs);
    }
    GuardSame(f, g, steady);
  }

  /** The last EMPTY sector is opened for a collection only. */
  lemma GuardOpen(f: Flash, t: nat, steady: bool)
    requires t < |f| && f[t].ok && f[t].store == STORE_EMPTY && (EmptyCount(f) > GC_EMPTY_THRESHOLD || !NoGc(f))
    ensures Guarded(f, Opened(f, t), steady)
  {
    hide EmptyCount; hide Used; hide Free;
    var g := Opened(f, t);
    EmptyCountUpdate(f, t, g[t]);
    if !NoGc(f) {
      var s: nat :| s < |f| && f[s].dirty == DIRTY_GC;
      assert g[s].dirty == DIRTY_GC;
    }
    if LeftBare(f) {
      var u := BareOne(f);
      assert JustBegun(g[u].recs);
    }
  }

  /** Erasing and formatting a sector. */
  lemma GuardErase(f: Flash, s: nat, x: Sector, steady: bool)
    requires s < |f| && x in {ERASED, FORMATTED}
    ensures Guarded(f, f[s := x], steady)
  {
    var g := f[s := x];
    assert Used(x.recs) == Free(x.recs);
    hide EmptyCount; hide Used; hide Free; hide JustBegun;
    EmptyCountWitness(g);
    assert g[s] == x;
    if LeftBare(f) {
      var u := BareOne(f);
      assert u != s ==> JustBegun(g[u].recs);
    }
  }

  /** Only here something may be left uncounted. */
  lemma GuardBegin(f: Flash, t: nat, steady: bool)
    requires t < |f| && (steady ==> Steady(f))
    ensures Guarded(f, WithNew(f, t, Bare(f[t])), steady)
    ensures steady && f[t].recs == [] ==> Steady(WithNew(f, t, Bare(f[t])))
  {
    var g, r := WithNew(f, t, Bare(f[t])), Bare(f[t]);
    CountNew(f, t, r);
    FreeGrows(f[t].recs, r);
    hide EmptyCount; hide Used; hide Free;
    assert g[t].recs == f[t].recs + [r] && g[t].recs[..|f[t].recs|] == f[t].recs;
    SpareSame(f, g);
    if steady && f[t].recs != [] {
      assert JustBegun(g[t].recs);
    }
  }

  lemma SpareSame(f: Flash, g: Flash)
    requires |g| == |f| && EmptyCount(g) == EmptyCount(f)
    requires forall s: nat :: s < |f| ==> g[s].ok == f[s].ok && g[s].dirty == f[s].dirty
    ensures Spare(f) ==> Spare(g)
  {
    hide EmptyCount;
    if Spare(f) && EmptyCount(f) == 0 {
      var s: nat :| s < |f| && (!f[s].ok || f[s].dirty == DIRTY_GC);
      assert !g[s].ok || g[s].dirty == DIRTY_GC;
    }
  }

  /** With its header a record counts. */
  lemma GuardFill(f0: Flash, t: nat, r: Rec, q: Rec, steady: bool)
    requires t < |f0| && (steady ==> Steady(f0)) && q.hdr && RecOk(q, f0[t].recs == [])
    ensures Guarded(WithNew(f0, t, r), WithNew(f0, t, q), steady)
    ensures steady ==> Steady(WithNew(f0, t, q))
  {
    var f, g := WithNew(f0, t, r), WithNew(f0, t, q);
    CountNew(f0, t, r);
    CountNew(f0, t, q);
    FreeGrows(f0[t].recs, q);
    hide EmptyCount; hide Used; hide Free;
    SpareSame(f, g);
  }

  lemma GuardBlank(f: Flash, s: nat, steady: bool)
    requires s < |f| && f[s].recs == []
    ensures Guarded(f, WithNew(f, s, BLANK), steady)
  {
    var g := WithNew(f, s, BLANK);
    CountNew(f, s, BLANK);
    BlankIs(f, s);
    hide EmptyCount; hide Used; hide Free; hide JustBegun; hide WithNew;
    Extended(f, s, BLANK);
    assert g[s].ok == f[s].ok && g[s].dirty == f[s].dirty by { BlankHeader(f, s); }
    SpareSame(f, g);
    if LeftBare(f) {
      var u := BareOne(f);
      NothingBegun(f[s].recs);
      assert u != s;
      assert JustBegun(g[u].recs);
    }
  }

  lemma NothingBegun(recs: seq<Rec>)
    ensures recs == [] ==> !JustBegun(recs)
  {
  }

  lemma BlankHeader(f: Flash, s: nat)
    requires s < |f|
    ensures WithNew(f, s, BLANK)[s].ok == f[s].ok && WithNew(f, s, BLANK)[s].dirty == f[s].dirty
  {
  }

  // ---------------------------------------------------------------- what the contents of a run are

  lemma PoweredOn(f: Flash)
    ensures KeptRun([f], Steady(f))
  {
    hide Spare;
  }

  lemma EmptyIsSpare(f: Flash)
    requires EmptyCount(f) > 0
    ensures Spare(f)
  {
  }
}
