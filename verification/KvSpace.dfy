/**
 Whether a collection has room for what it moves when it has no EMPTY sector in reserve: a condition on the content
 before, and when it is exact.
 */
module KvSpace {
  import opened FdbDef
  import opened KvAlloc
  import opened KvCollect
  import opened KvEffects
  import opened KvFlash
  import opened Wrappers
  import opened WalkOrder

  /** The bytes of the records that are kept, from record `i` on. */
  function KeptBytes(recs: seq<Rec>, i: nat): nat
    requires i <= |recs|
    decreases |recs| - i
  {
    if i == |recs| then 0
    else (if recs[i].status in {WRITE, PRE_DELETE} then recs[i].len else 0) + KeptBytes(recs, i + 1)
  }

  /** Sector `t` is clean and takes all that `s` keeps from record `i` on. */
  predicate Spacious(f: Flash, s: nat, i: nat, t: nat, cap: nat) {
    && s < |f| && i <= |f[s].recs| && t < |f| && t != s && f[t].ok && f[t].dirty == DIRTY_FALSE
    && Free(f[t].recs) + KeptBytes(f[s].recs, i) + REMAIN_THRESHOLD < cap
  }

  ghost predicate HasSpace(f: Flash, s: nat, i: nat, cap: nat) { exists t: nat :: Spacious(f, s, i, t, cap) }

  /** A collection of `s` can put records into `t` only. */
  predicate OnlyClean(f: Flash, s: nat, t: nat) {
    && s < |f| && t < |f| && t != s && f[t].ok && f[t].dirty == DIRTY_FALSE
    && forall u: nat :: u < |f| && u != t && u != s && f[u].ok ==> f[u].dirty != DIRTY_FALSE
  }

  /** No other record keeps the key of a record that `s` keeps from record `i` on. */
  ghost predicate Alone(f: Flash, s: nat, i: nat) {
    forall a, b :: Kept(f, a) && a.sec == s && i <= a.idx && Kept(f, b) && b != a ==> At(f, b).key != At(f, a).key
  }

  ghost predicate Lonely(f: Flash, s: nat, t: nat) { OnlyClean(f, s, t) && Alone(f, s, 0) }

  // ---------------------------------------------------------------- one move

  lemma {:induction false} KeptSame(p: seq<Rec>, q: seq<Rec>, i: nat)
    requires |p| == |q| && i <= |p|
    requires forall k :: i <= k < |p| ==> p[k].status == q[k].status && p[k].len == q[k].len
    ensures KeptBytes(p, i) == KeptBytes(q, i)
    decreases |p| - i
  {
    if i < |p| {
      KeptSame(p, q, i + 1);
    }
  }

  /** A record of this size goes to a sector that has room for it, and to no other one. */
  lemma PlaceFound(f: Flash, s: nat, t: nat, size: nat, oldest: nat, cap: nat) returns (u: nat)
    requires FlashOk(f, cap) && oldest < |f| && s < |f| && f[s].dirty == DIRTY_GC && t < |f| && Fits(f[t], size, true, cap)
    ensures u < |f| && u != s && Choose(f, oldest, size, true, cap) == Some(u) && Fits(f[u], size, true, cap)
    ensures f[u].store in {STORE_EMPTY, STORE_USING} && f[u].ok
    ensures OnlyClean(f, s, t) ==> u == t
  {
    hide Free; hide Apart; hide EmptyCount; hide Choose;
    assert SectorOk(f[t], cap);
    EmptyCountWitness(f);
    ChooseExact(f, oldest, size, true, cap);
    u := Choose(f, oldest, size, true, cap).value;
  }

  /** What withdrawing record `i` of sector `s` leaves. */
  lemma WithdrawnSpace(f: Flash, s: nat, i: nat)
    requires Kept(f, Addr(s, i)) && f[s].dirty == DIRTY_GC
    ensures var g := Withdrawn(f, Addr(s, i));
            && |g| == |f| && g[s].dirty == DIRTY_GC && |g[s].recs| == |f[s].recs| && Pend(g, Addr(s, i))
            && At(g, Addr(s, i)).len == At(f, Addr(s, i)).len
            && (forall u: nat :: u < |f| ==> Free(g[u].recs) == Free(f[u].recs) && g[u] == f[u].(recs := g[u].recs))
            && KeptBytes(g[s].recs, i) == KeptBytes(f[s].recs, i)
            && KeptBytes(g[s].recs, i + 1) == KeptBytes(f[s].recs, i + 1)
            && (forall u: nat :: u < |f| && u != s ==> g[u] == f[u])
  {
    hide Free; hide Used;
    var a := Addr(s, i);
    if Live(f, a) {
      StatusSpace(f, a, PRE_DELETE, PreDeleted(f, a));
      StatusFrame(f, a, PRE_DELETE, PreDeleted(f, a));
      var p, q := f[s].recs, PreDeleted(f, a)[s].recs;
      assert q == p[i := p[i].(status := PRE_DELETE)];
      KeptSame(p, q, i + 1);
    }
  }

  /** What dropping it leaves. */
  lemma DroppedSpace(f: Flash, s: nat, i: nat)
    requires Pend(f, Addr(s, i)) && f[s].dirty == DIRTY_GC
    ensures var g := Dropped(f, Addr(s, i));
            && |g| == |f| && g[s].dirty == DIRTY_GC && |g[s].recs| == |f[s].recs|
            && (forall u: nat :: u < |f| && u != s ==> g[u] == f[u])
            && KeptBytes(g[s].recs, i + 1) == KeptBytes(f[s].recs, i + 1)
  {
    hide Free; hide Used;
    var a := Addr(s, i);
    StatusSpace(f, a, DELETED, Dropped(f, a));
    var p, q := f[s].recs, Dropped(f, a)[s].recs;
    assert q == p[i := p[i].(status := DELETED)];
    KeptSame(p, q, i + 1);
  }

  /** How much room a granted move leaves in sector `t`, and how much is still to be moved. */
  lemma MoveSpace(f: Flash, g: Flash, s: nat, i: nat, t: nat, oldest: nat, cap: nat, recovering: bool, ok: bool)
    requires FlashOk(f, cap) && oldest < |f| && Kept(f, Addr(s, i)) && f[s].dirty == DIRTY_GC && t < |f| && t != s
    requires Fits(f[t], At(f, Addr(s, i)).len, true, cap)
    requires MoveEffect(f, g, Addr(s, i), oldest, true, cap, recovering, ok)
    ensures ok && |g| == |f| && g[s].dirty == DIRTY_GC && |g[s].recs| == |f[s].recs|
    ensures KeptBytes(g[s].recs, i + 1) == KeptBytes(f[s].recs, i + 1)
    ensures g[t].ok && g[t].dirty == f[t].dirty && Free(g[t].recs) <= Free(f[t].recs) + At(f, Addr(s, i)).len
    ensures OnlyClean(f, s, t) && !(recovering && Pend(f, Addr(s, i)) && HasLive(f, At(f, Addr(s, i)).key)) ==>
              g[t].recs == f[t].recs + [At(f, Addr(s, i)).(status := WRITE)]
    // with another place for it, sector `t` keeps all its room
    ensures Free(g[t].recs) == Free(f[t].recs) || g[t].recs == f[t].recs + [At(f, Addr(s, i)).(status := WRITE)]
  {
    hide Choose; hide Placed; hide Marked; hide Free; hide Used; hide EmptyCount; hide HasLive; hide Fits; hide FlashOk;
    hide OnlyClean; hide PreDeleted; hide Dropped;
    var a, r := Addr(s, i), At(f, Addr(s, i)).(status := WRITE);
    var f1 := Withdrawn(f, a);
    WithdrawnSpace(f, s, i);
    WithdrawnOk(f, cap, a);
    KeptFactsSector(f, cap, a);
    FitsOk(f[t], r.len, true, cap);
    SameFits(f, f1, s, t, r.len, cap);
    var u := PlaceFound(f1, s, t, r.len, oldest, cap);
    if recovering && Pend(f, a) && HasLive(f, r.key) {
      DroppedSpace(f1, s, i);
    } else {
      var f2 := Placed(f1, u, r);
      PlacedFrame(f1, u, r, f2);
      assert Pend(f2, a);
      DroppedSpace(f2, s, i);
    }
  }

  lemma WithdrawnOk(f: Flash, cap: nat, a: Addr)
    requires FlashOk(f, cap) && Kept(f, a)
    ensures FlashOk(Withdrawn(f, a), cap)
  {
    StepStatusOk(f, cap, a, PRE_DELETE);
  }

  lemma SameFits(f: Flash, g: Flash, s: nat, t: nat, size: nat, cap: nat)
    requires |g| == |f| && t < |f| && t != s && Fits(f[t], size, true, cap)
    requires forall u: nat :: u < |f| ==> Free(g[u].recs) == Free(f[u].recs) && g[u] == f[u].(recs := g[u].recs)
    ensures Fits(g[t], size, true, cap)
    ensures OnlyClean(g, s, t) <==> OnlyClean(f, s, t)
  {
    hide Free;
  }

  /** With room for all that is left, the next move is granted and leaves room for the rest. */
  lemma SpaciousMove(f: Flash, g: Flash, s: nat, i: nat, t: nat, oldest: nat, cap: nat, recovering: bool, ok: bool)
    requires FlashOk(f, cap) && oldest < |f| && Kept(f, Addr(s, i)) && f[s].dirty == DIRTY_GC && Spacious(f, s, i, t, cap)
    requires MoveEffect(f, g, Addr(s, i), oldest, true, cap, recovering, ok)
    ensures ok && Spacious(g, s, i + 1, t, cap)
  {
    hide MoveEffect; hide Free; hide FlashOk;
    assert KeptBytes(f[s].recs, i) == At(f, Addr(s, i)).len + KeptBytes(f[s].recs, i + 1);
    MoveSpace(f, g, s, i, t, oldest, cap, recovering, ok);
  }

  // ---------------------------------------------------------------- one sector

  /** A record that found no room, and the only one to keep its key. */
  ghost predicate Stranded(f: Flash, s: nat, i: nat, a: Addr) {
    a.sec == s && a.idx < i && Kept(f, a) && forall b :: Kept(f, b) && At(f, b).key == At(f, a).key ==> b == a
  }

  /** The collection of `s` has come to record `i`, with `t` as the only place: all found room and took up exactly
      their bytes, or one was refused. */
  ghost predicate Filling(f0: Flash, f: Flash, s: nat, i: nat, t: nat, starved: bool) {
    && OnlyClean(f, s, t) && Alone(f, s, i) && i <= |f[s].recs| && t < |f0| && s < |f0|
    && (!starved ==> Free(f[t].recs) + KeptBytes(f[s].recs, i) == Free(f0[t].recs) + KeptBytes(f0[s].recs, 0))
    && (starved ==> exists a :: Stranded(f, s, i, a))
  }

  /** The collection of `s`, which began with `f0`, has come to record `i`. */
  ghost predicate Rooms(f0: Flash, f: Flash, s: nat, i: nat, cap: nat, starved: bool) {
    && (HasSpace(f0, s, 0, cap) ==> !starved && HasSpace(f, s, i, cap))
    && forall t: nat :: Lonely(f0, s, t) ==> Filling(f0, f, s, i, t, starved)
  }

  lemma RoomsStart(f: Flash, s: nat, cap: nat)
    requires s < |f|
    ensures Rooms(f, f, s, 0, cap, false)
  {
    hide Free;
  }

  lemma RoomsSkip(f0: Flash, f: Flash, s: nat, i: nat, cap: nat, starved: bool)
    requires Rooms(f0, f, s, i, cap, starved) && s < |f| && i < |f[s].recs| && !Kept(f, Addr(s, i))
    ensures Rooms(f0, f, s, i + 1, cap, starved)
  {
    hide Free;
    if HasSpace(f0, s, 0, cap) {
      var t: nat :| Spacious(f, s, i, t, cap);
      assert Spacious(f, s, i + 1, t, cap);
    }
    forall t: nat | Lonely(f0, s, t) ensures Filling(f0, f, s, i + 1, t, starved) {
      assert Filling(f0, f, s, i, t, starved);
      if starved {
        var a :| Stranded(f, s, i, a);
        assert Stranded(f, s, i + 1, a);
      }
    }
  }

  lemma RoomsMove(f0: Flash, f: Flash, g: Flash, s: nat, i: nat, cap: nat, starved: bool, oldest: nat, recovering: bool,
                  ok: bool, steady: bool)
    requires Rooms(f0, f, s, i, cap, starved) && Kept(f, Addr(s, i)) && f[s].dirty == DIRTY_GC
    requires FlashOk(f, cap) && oldest < |f| && MoveEffect(f, g, Addr(s, i), oldest, true, cap, recovering, ok)
    requires CalmBy(f, steady)
    ensures Rooms(f0, g, s, i + 1, cap, starved || !ok)
  {
    hide MoveEffect; hide FlashOk; hide Spacious; hide Lonely; hide Filling; hide CalmBy;
    if HasSpace(f0, s, 0, cap) {
      var t: nat :| Spacious(f, s, i, t, cap);
      SpaciousMove(f, g, s, i, t, oldest, cap, recovering, ok);
    }
    forall t: nat | Lonely(f0, s, t) ensures Filling(f0, g, s, i + 1, t, starved || !ok) {
      FillingMove(f0, f, g, s, i, t, cap, starved, oldest, recovering, ok, steady);
    }
  }

  lemma FillingMove(f0: Flash, f: Flash, g: Flash, s: nat, i: nat, t: nat, cap: nat, starved: bool, oldest: nat,
                    recovering: bool, ok: bool, steady: bool)
    requires Filling(f0, f, s, i, t, starved) && Kept(f, Addr(s, i)) && f[s].dirty == DIRTY_GC
    requires FlashOk(f, cap) && oldest < |f| && MoveEffect(f, g, Addr(s, i), oldest, true, cap, recovering, ok)
    requires CalmBy(f, steady)
    ensures Filling(f0, g, s, i + 1, t, starved || !ok)
  {
    hide MoveEffect; hide FlashOk; hide CalmBy; hide Free; hide Stranded; hide Alone; hide OnlyClean;
    MoveFrame(f, g, Addr(s, i), oldest, true, cap, recovering, ok);
    AloneOn(f, g, s, i, ok);
    OnlyCleanOn(f, g, s, i, t);
    if starved {
      var a :| Stranded(f, s, i, a);
      StrandedOn(f, g, s, i, a);
    } else if !ok {
      RefusedFrame(f, g, Addr(s, i), oldest, cap, recovering);
      StrandedNow(f, g, s, i);
    } else {
      FilledExactly(f, g, s, i, t, cap, oldest, recovering, steady);
    }
  }

  lemma AloneOn(f: Flash, g: Flash, s: nat, i: nat, ok: bool)
    requires Alone(f, s, i) && Kept(f, Addr(s, i)) && Frame(f, g, Addr(s, i)) && |g[s].recs| == |f[s].recs|
    requires At(g, Addr(s, i)).status in {DELETED, PRE_DELETE} && At(g, Addr(s, i)).key == At(f, Addr(s, i)).key
    ensures Alone(g, s, i + 1)
  {
    var here := Addr(s, i);
    forall a, b | Kept(g, a) && a.sec == s && i + 1 <= a.idx && Kept(g, b) && b != a ensures At(g, b).key != At(g, a).key {
      assert In(f, a) && At(f, a) == At(g, a) && Kept(f, a);
      assert In(f, b) && b != here ==> Kept(f, b);
      assert At(f, here).key != At(f, a).key;
    }
  }

  lemma OnlyCleanOn(f: Flash, g: Flash, s: nat, i: nat, t: nat)
    requires OnlyClean(f, s, t) && Frame(f, g, Addr(s, i))
    ensures OnlyClean(g, s, t)
  {
  }

  lemma StrandedOn(f: Flash, g: Flash, s: nat, i: nat, a: Addr)
    requires Stranded(f, s, i, a) && Alone(f, s, i) && Kept(f, Addr(s, i)) && Frame(f, g, Addr(s, i))
    requires At(g, Addr(s, i)).key == At(f, Addr(s, i)).key
    ensures Stranded(g, s, i + 1, a)
  {
    var here := Addr(s, i);
    assert At(f, here).key != At(f, a).key;
    forall b | Kept(g, b) && At(g, b).key == At(g, a).key ensures b == a {
      assert In(f, b) ==> b != here && At(g, b) == At(f, b) && Kept(f, b);
    }
  }

  lemma RefusedFrame(f: Flash, g: Flash, a: Addr, oldest: nat, cap: nat, recovering: bool)
    requires Kept(f, a) && oldest < |f| && MoveEffect(f, g, a, oldest, true, cap, recovering, false)
    ensures forall b :: In(g, b) ==> In(f, b)
  {
    hide Choose;
    StatusFrame(f, a, PRE_DELETE, PreDeleted(f, a));
  }

  lemma StrandedNow(f: Flash, g: Flash, s: nat, i: nat)
    requires Alone(f, s, i) && Kept(f, Addr(s, i)) && Frame(f, g, Addr(s, i))
    requires At(g, Addr(s, i)) == At(f, Addr(s, i)).(status := PRE_DELETE)
    requires forall b :: In(g, b) ==> In(f, b)
    ensures Stranded(g, s, i + 1, Addr(s, i))
  {
    var here := Addr(s, i);
    forall b | Kept(g, b) && b != here ensures At(g, b).key != At(g, here).key {
      assert Kept(f, b) && At(f, b) == At(g, b);
    }
  }

  /** What was moved has taken up exactly its bytes. */
  lemma FilledExactly(f: Flash, g: Flash, s: nat, i: nat, t: nat, cap: nat, oldest: nat, recovering: bool, steady: bool)
    requires OnlyClean(f, s, t) && Alone(f, s, i) && Kept(f, Addr(s, i)) && f[s].dirty == DIRTY_GC
    requires FlashOk(f, cap) && oldest < |f| && MoveEffect(f, g, Addr(s, i), oldest, true, cap, recovering, true)
    requires CalmBy(f, steady)
    ensures |g| == |f| && t < |g| && s < |g| && i < |f[s].recs| && i < |g[s].recs|
    ensures Free(g[t].recs) + KeptBytes(g[s].recs, i + 1) == Free(f[t].recs) + KeptBytes(f[s].recs, i)
  {
    hide MoveEffect; hide FlashOk; hide CalmBy; hide Free; hide Fits; hide HasLive; hide Takes;
    var a, r := Addr(s, i), At(f, Addr(s, i)).(status := WRITE);
    GrantedTo(f, g, s, i, t, oldest, cap, recovering);
    NoLiveTwin(f, s, i);
    MoveSpace(f, g, s, i, t, oldest, cap, recovering, true);
    KeptFactsSector(f, cap, a);
    KeptSolid(f, steady, a, r);
    CalmTakes(f, steady, t, r);
    RecOkAnywhere(r, i == 0, f[t].recs == []);
    FreeGrows(f[t].recs, r);
  }

  lemma NoLiveTwin(f: Flash, s: nat, i: nat)
    requires Alone(f, s, i) && Kept(f, Addr(s, i))
    ensures Pend(f, Addr(s, i)) ==> !HasLive(f, At(f, Addr(s, i)).key)
  {
    forall b | Live(f, b) && b != Addr(s, i) ensures At(f, b).key != At(f, Addr(s, i)).key {
      assert Kept(f, b);
    }
  }

  lemma RecOkAnywhere(r: Rec, first: bool, other: bool)
    requires RecOk(r.(status := WRITE), first) && r.hdr
    ensures RecOk(r.(status := WRITE), other)
  {
  }

  /** The move was granted, so the only place had room for it. */
  lemma GrantedTo(f: Flash, g: Flash, s: nat, i: nat, t: nat, oldest: nat, cap: nat, recovering: bool)
    requires OnlyClean(f, s, t) && Kept(f, Addr(s, i)) && f[s].dirty == DIRTY_GC && FlashOk(f, cap) && oldest < |f|
    requires MoveEffect(f, g, Addr(s, i), oldest, true, cap, recovering, true)
    ensures Fits(f[t], At(f, Addr(s, i)).len, true, cap)
  {
    hide Choose; hide Free; hide Placed; hide Marked; hide FlashOk; hide EmptyCount; hide HasLive; hide Dropped; hide PreDeleted;
    var a := Addr(s, i);
    WithdrawnSpace(f, s, i);
    ChooseExact(Withdrawn(f, a), oldest, At(f, a).len, true, cap);
  }

  /** How a collection of sector `s`, from content `f` to content `g`, has fared: with room for all nothing was
      refused; and with one place only, for keys that nothing else keeps, nothing was lost if and only if there was
      room for all. */
  ghost predicate Fared(f: Flash, g: Flash, s: nat, cap: nat, starved: bool) {
    && (HasSpace(f, s, 0, cap) ==> !starved)
    && forall t: nat :: Lonely(f, s, t) ==> (Lost(f, g) == {} <==> Spacious(f, s, 0, t, cap))
  }

  lemma RoomsMarked(f: Flash, g: Flash, s: nat, cap: nat)
    requires s < |f| && g == f[s := f[s].(dirty := DIRTY_GC)]
    ensures HasSpace(f, s, 0, cap) ==> HasSpace(g, s, 0, cap)
    ensures forall t: nat :: Lonely(f, s, t) ==> Lonely(g, s, t)
    ensures forall t: nat :: Spacious(f, s, 0, t, cap) <==> Spacious(g, s, 0, t, cap)
  {
    hide Free;
    forall t: nat ensures Spacious(f, s, 0, t, cap) <==> Spacious(g, s, 0, t, cap) {
    }
    assert forall a :: Kept(g, a) ==> Kept(f, a) && At(f, a) == At(g, a);
  }

  lemma RoomsEnd(f0: Flash, f1: Flash, f: Flash, g: Flash, s: nat, cap: nat, starved: bool)
    requires s < |f0| && f1 == f0[s := f0[s].(dirty := DIRTY_GC)] && s < |f| && FlashOk(f, cap)
    requires Rooms(f1, f, s, |f[s].recs|, cap, starved) && g == f[s := FORMATTED]
    requires StoredKeys(f) == StoredKeys(f0) && (!starved ==> StoredKeys(g) == StoredKeys(f0))
    ensures Fared(f0, g, s, cap, starved)
  {
    hide Free; hide StoredKeys; hide Spacious; hide Lonely; hide FlashOk; hide Filling;
    RoomsMarked(f0, f1, s, cap);
    forall t: nat | Lonely(f0, s, t) ensures Lost(f0, g) == {} <==> Spacious(f0, s, 0, t, cap) {
      LonelyEnd(f1, f, s, t, cap, starved);
      if starved {
        var a := StrandedOne(f1, f, s, t);
        StrandedLost(f, g, s, a);
        assert At(f, a).key in StoredKeys(f0) && At(f, a).key !in StoredKeys(g);
        assert At(f, a).key in Lost(f0, g);
      }
      if Spacious(f1, s, 0, t, cap) {
        assert HasSpace(f1, s, 0, cap);
      }
    }
  }

  lemma LonelyEnd(f1: Flash, f: Flash, s: nat, t: nat, cap: nat, starved: bool)
    requires s < |f| && FlashOk(f, cap) && Lonely(f1, s, t)
    requires forall u: nat :: Lonely(f1, s, u) ==> Filling(f1, f, s, |f[s].recs|, u, starved)
    ensures !starved ==> Spacious(f1, s, 0, t, cap)
    ensures Filling(f1, f, s, |f[s].recs|, t, starved)
  {
    hide Free; hide Alone; hide Stranded;
    assert Filling(f1, f, s, |f[s].recs|, t, starved);
    assert SectorOk(f[t], cap);
  }

  lemma StrandedOne(f1: Flash, f: Flash, s: nat, t: nat) returns (a: Addr)
    requires s < |f| && Filling(f1, f, s, |f[s].recs|, t, true)
    ensures Stranded(f, s, |f[s].recs|, a)
  {
    hide Free;
    a :| Stranded(f, s, |f[s].recs|, a);
  }

  lemma StrandedLost(f: Flash, g: Flash, s: nat, a: Addr)
    requires s < |f| && Stranded(f, s, |f[s].recs|, a) && g == f[s := FORMATTED]
    ensures At(f, a).key in StoredKeys(f) && At(f, a).key !in StoredKeys(g)
  {
    assert Stored(f, At(f, a).key);
    assert forall b :: Kept(g, b) ==> Kept(f, b) && At(f, b) == At(g, b) && b.sec != s;
  }

  // ---------------------------------------------------------------- a whole collection

  /** The sector that a collection starting at `start` empties first. */
  predicate FirstDirty(f: Flash, start: nat, s: nat) {
    && s < |f| && start < |f| && f[s].ok && f[s].dirty in {DIRTY_TRUE, DIRTY_GC}
    && CleanBehind(f, start, StepOf(start, s, |f|))
  }

  /** A collection from here on loses nothing: once its first sector is free, there is a reserve. */
  ghost predicate Safe(f: Flash, start: nat, cap: nat) {
    EmptyCount(f) > 0 || forall s: nat :: FirstDirty(f, start, s) ==> HasSpace(f, s, 0, cap)
  }

  /** What a collection from `start` on loses, if it begins without a reserve, its first sector keeps keys that nothing
      else keeps, and there is one place for them: something, if and only if there is not room for all. */
  ghost predicate Costs(f: Flash, start: nat, cap: nat, lost: set<Key>) {
    forall s: nat, t: nat :: EmptyCount(f) == 0 && FirstDirty(f, start, s) && Lonely(f, s, t) ==>
      (lost == {} <==> Spacious(f, s, 0, t, cap))
  }

  /** How a collection from `start` on has fared as a whole. */
  ghost predicate FaredAll(f: Flash, g: Flash, start: nat, cap: nat, starved: bool) {
    (Safe(f, start, cap) ==> !starved) && Costs(f, start, cap, Lost(f, g))
  }

  lemma OneFirst(f: Flash, start: nat, s: nat, u: nat)
    requires FirstDirty(f, start, s) && FirstDirty(f, start, u)
    ensures s == u
  {
    assert !(StepOf(start, s, |f|) < StepOf(start, u, |f|)) && !(StepOf(start, u, |f|) < StepOf(start, s, |f|));
  }

  /** The collection has come to sector `j` of its walk. */
  ghost predicate Faring(f0: Flash, f: Flash, start: nat, j: nat, cap: nat, starved: bool) {
    && |f| == |f0| && start < |f0|
    && (EmptyCount(f0) > 0 ==> !starved && EmptyCount(f) > 0)
    && (EmptyCount(f0) == 0 ==>
          || (f == f0 && !starved && CleanBehind(f0, start, j))
          || (EmptyCount(f) > 0 && FaredAll(f0, f, start, cap, starved)))
  }

  lemma FaringStart(f: Flash, start: nat, cap: nat)
    requires start < |f|
    ensures Faring(f, f, start, 0, cap, false)
  {
  }

  lemma ManyEmpty(f: Flash, start: nat, cap: nat)
    ensures EmptyCount(f) > GC_EMPTY_THRESHOLD ==> FaredAll(f, f, start, cap, false)
  {
  }

  lemma FaringSkip(f0: Flash, f: Flash, start: nat, j: nat, cap: nat, starved: bool)
    requires Faring(f0, f, start, j, cap, starved) && j < |f| && start < |f|
    requires var s := SectorAt(start, j, |f|); f[s].ok ==> f[s].dirty !in {DIRTY_TRUE, DIRTY_GC}
    ensures Faring(f0, f, start, j + 1, cap, starved)
  {
    hide FaredAll; hide EmptyCount;
  }

  lemma SafeFirst(f: Flash, start: nat, s: nat, cap: nat)
    requires FirstDirty(f, start, s) && EmptyCount(f) == 0
    ensures Safe(f, start, cap) <==> HasSpace(f, s, 0, cap)
  {
    hide EmptyCount; hide HasSpace; hide FirstDirty;
    forall u: nat | FirstDirty(f, start, u) ensures u == s {
      OneFirst(f, start, s, u);
    }
  }

  lemma EmptyNow(f: Flash, s: nat)
    requires s < |f| && f[s] == FORMATTED
    ensures EmptyCount(f) > 0
  {
    EmptyCountWitness(f);
  }

  lemma FaringNext(f0: Flash, f: Flash, g: Flash, start: nat, j: nat, cap: nat, starved: bool, more: bool)
    requires Faring(f0, f, start, j, cap, starved) && j < |f| && start < |f|
    requires var s := SectorAt(start, j, |f|);
             && f[s].ok && f[s].dirty in {DIRTY_TRUE, DIRTY_GC} && |g| == |f| && g[s] == FORMATTED
             && Fared(f, g, s, cap, more)
    requires Collected(f, g, more)
    ensures Faring(f0, g, start, j + 1, cap, starved || more)
  {
    var s := SectorAt(start, j, |f|);
    EmptyNow(g, s);
    hide EmptyCount; hide StoredKeys; hide Torn; hide PendingDirty; hide HasSpace; hide Lonely; hide Spacious; hide Safe;
    if EmptyCount(f0) == 0 {
      if EmptyCount(f) > 0 && FaredAll(f0, f, start, cap, starved) {
        assert StoredKeys(g) == StoredKeys(f);
        assert Lost(f0, g) == Lost(f0, f);
      } else {
        assert FirstDirty(f0, start, s);
        SafeFirst(f0, start, s, cap);
        forall u: nat, t: nat | FirstDirty(f0, start, u) && Lonely(f0, u, t)
          ensures Lost(f0, g) == {} <==> Spacious(f0, u, 0, t, cap)
        {
          OneFirst(f0, start, s, u);
        }
      }
    }
  }

  lemma FaringEnd(f0: Flash, f: Flash, start: nat, j: nat, cap: nat, starved: bool)
    requires Faring(f0, f, start, j, cap, starved) && (j == |f| || EmptyCount(f) > 0) && FlashOk(f0, cap)
    ensures FaredAll(f0, f, start, cap, starved)
    ensures EmptyCount(f) > 0 || (f == f0 && NothingDirty(f0))
  {
    hide EmptyCount; hide StoredKeys; hide HasSpace; hide Lonely; hide Spacious;
    if EmptyCount(f0) == 0 && EmptyCount(f) == 0 {
      assert CleanBehind(f0, start, |f0|);
      NeverDirty(f0, start, cap);
    }
  }

  lemma NeverDirty(f: Flash, start: nat, cap: nat)
    requires start < |f| && CleanBehind(f, start, |f|) && FlashOk(f, cap)
    ensures NothingDirty(f) && forall s: nat :: !FirstDirty(f, start, s)
  {
    forall s: nat | s < |f| ensures f[s].dirty !in {DIRTY_TRUE, DIRTY_GC} {
      assert SectorOk(f[s], cap);
    }
  }

  // ---------------------------------------------------------------- collections resumed at boot

  /** Nothing that a power cut has left of a collection will cost a key. */
  ghost predicate SafeResume(f: Flash, start: nat, cap: nat) { NoGc(f) || Safe(f, start, cap) }

  /** The walk that resumes collections has come to sector `j`. */
  ghost predicate Resuming(f0: Flash, f: Flash, start: nat, oldest: nat, j: nat, cap: nat, starved: bool) {
    && |f| == |f0| && start < |f0|
    && (EmptyCount(f0) > 0 ==> !starved && EmptyCount(f) > 0)
    && (EmptyCount(f0) == 0 ==>
          || (f == f0 && !starved && oldest == start
              && forall s: nat :: s < |f0| && StepOf(start, s, |f0|) < j && f0[s].ok ==> f0[s].dirty != DIRTY_GC)
          || (EmptyCount(f) > 0 && FaredAll(f0, f, start, cap, starved)))
  }

  lemma ResumingStart(f: Flash, start: nat, cap: nat)
    requires start < |f|
    ensures Resuming(f, f, start, start, 0, cap, false)
  {
  }

  lemma ResumingSkip(f0: Flash, f: Flash, start: nat, oldest: nat, j: nat, cap: nat, starved: bool)
    requires Resuming(f0, f, start, oldest, j, cap, starved) && j < |f| && start < |f|
    requires var s := SectorAt(start, j, |f|); !f[s].ok || f[s].dirty != DIRTY_GC
    ensures Resuming(f0, f, start, oldest, j + 1, cap, starved)
  {
    hide FaredAll; hide EmptyCount;
  }

  lemma ResumingNext(f0: Flash, f: Flash, g: Flash, start: nat, oldest: nat, oldest': nat, j: nat, cap: nat, starved: bool,
                     more: bool)
    requires Resuming(f0, f, start, oldest, j, cap, starved) && j < |f| && start < |f|
    requires f[SectorAt(start, j, |f|)].dirty == DIRTY_GC && Collected(f, g, more) && FaredAll(f, g, oldest, cap, more)
    requires EmptyCount(g) > 0 || NothingDirty(f)
    ensures Resuming(f0, g, start, oldest', j + 1, cap, starved || more)
  {
    hide EmptyCount; hide StoredKeys; hide Torn; hide PendingDirty; hide HasSpace; hide Lonely; hide Spacious; hide Safe;
    hide FirstDirty;
    assert EmptyCount(g) > 0;
    if EmptyCount(f0) == 0 && EmptyCount(f) > 0 && FaredAll(f0, f, start, cap, starved) {
      assert StoredKeys(g) == StoredKeys(f);
      assert Lost(f0, g) == Lost(f0, f);
    }
  }

  lemma ResumingEnd(f0: Flash, f: Flash, start: nat, oldest: nat, cap: nat, starved: bool)
    requires Resuming(f0, f, start, oldest, |f|, cap, starved) && FlashOk(f0, cap)
    ensures !NoGc(f0) ==> FaredAll(f0, f, start, cap, starved)
    ensures EmptyCount(f) > 0 || (f == f0 && NoGc(f0))
  {
    hide EmptyCount; hide StoredKeys; hide HasSpace; hide Lonely; hide Spacious; hide FirstDirty;
    if EmptyCount(f0) == 0 && f == f0 && EmptyCount(f) == 0 {
      forall s: nat | s < |f0| ensures f0[s].dirty != DIRTY_GC {
        assert SectorOk(f0[s], cap);
      }
    }
  }
}
