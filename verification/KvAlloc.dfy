/**
 Where `alloc_kv` puts a record: the first sector in walk order that is in use and has room, else
 an empty one as long as the reserve for garbage collection is not touched.
 */
module KvAlloc {
  import opened Wrappers
  import opened FdbDef
  import opened KvFlash
  import opened WalkOrder

  lemma {:induction false} EmptyCountConcat(f: Flash, g: Flash)
    ensures EmptyCount(f + g) == EmptyCount(f) + EmptyCount(g)
  {
    if g == [] {
      assert f + g == f;
    } else {
      assert (f + g)[..|f + g| - 1] == f + g[..|g| - 1];
      EmptyCountConcat(f, g[..|g| - 1]);
    }
  }

  /** The sectors a walk has passed after `j` steps. */
  function Walked(f: Flash, oldest: nat, j: nat): Flash
    requires oldest < |f| && j <= |f|
  {
    if oldest + j <= |f| then f[oldest..oldest + j] else f[oldest..] + f[..oldest + j - |f|]
  }

  lemma WalkedNext(f: Flash, oldest: nat, j: nat)
    requires oldest < |f| && j < |f|
    ensures EmptyCount(Walked(f, oldest, j + 1))
         == EmptyCount(Walked(f, oldest, j)) + EmptyBit(f[SectorAt(oldest, j, |f|)])
  {
    var w, w', x := Walked(f, oldest, j), Walked(f, oldest, j + 1), f[SectorAt(oldest, j, |f|)];
    assert |w'| == |w| + 1;
    if oldest + j < |f| {
      assert w' == w + [x];
    } else if oldest + j == |f| {
      assert w == f[oldest..] && w' == w + [x];
    } else {
      assert w' == w + [x];
    }
    assert w'[..|w|] == w && w'[|w|] == x;
  }

  lemma WalkedAll(f: Flash, oldest: nat)
    requires oldest < |f|
    ensures EmptyCount(Walked(f, oldest, 0)) == 0
    ensures EmptyCount(Walked(f, oldest, |f|)) == EmptyCount(f)
  {
    if oldest == 0 {
      assert Walked(f, 0, |f|) == f;
    } else {
      var p, q := f[..oldest], f[oldest..];
      assert f == p + q && Walked(f, oldest, |f|) == q + p;
      EmptyCountConcat(q, p);
      EmptyCountConcat(p, q);
    }
  }

  predicate Fits(x: Sector, size: nat, gc: bool, cap: nat) {
    && x.ok
    && cap - Free(x.recs) > size + REMAIN_THRESHOLD
    && (x.dirty == DIRTY_FALSE || (x.dirty == DIRTY_TRUE && !gc))
  }

  function FirstFit(f: Flash, oldest: nat, store: Store, size: nat, gc: bool, cap: nat, j: nat): (r: Option<nat>)
    requires oldest < |f| && j <= |f|
    ensures r.Some? ==> r.value < |f| && f[r.value].store == store && Fits(f[r.value], size, gc, cap)
    decreases |f| - j
  {
    if j == |f| then None
    else
      var s := SectorAt(oldest, j, |f|);
      if f[s].store == store && Fits(f[s], size, gc, cap) then Some(s)
      else FirstFit(f, oldest, store, size, gc, cap, j + 1)
  }

  function Choose(f: Flash, oldest: nat, size: nat, gc: bool, cap: nat): Option<nat>
    requires oldest < |f|
  {
    var u := FirstFit(f, oldest, STORE_USING, size, gc, cap, 0);
    if u.Some? then u
    else if EmptyCount(f) > GC_EMPTY_THRESHOLD || (EmptyCount(f) > 0 && gc) then
      FirstFit(f, oldest, STORE_EMPTY, size, gc, cap, 0)
    else None
  }

  lemma {:induction false} FirstFitComplete(f: Flash, oldest: nat, store: Store, size: nat, gc: bool, cap: nat,
                                            j: nat, s: nat)
    requires oldest < |f| && j <= |f| && s < |f| && j <= StepOf(oldest, s, |f|)
    requires f[s].store == store && Fits(f[s], size, gc, cap)
    ensures FirstFit(f, oldest, store, size, gc, cap, j).Some?
    decreases |f| - j
  {
    if SectorAt(oldest, j, |f|) != s {
      FirstFitComplete(f, oldest, store, size, gc, cap, j + 1, s);
    }
  }

  /** An allocation is refused exactly when no sector in use has room and the empty sectors left are
      no more than the reserve, which only garbage collection may use, or are too small. */
  lemma ChooseExact(f: Flash, oldest: nat, size: nat, gc: bool, cap: nat)
    requires oldest < |f|
    ensures Choose(f, oldest, size, gc, cap).Some? <==>
            || (exists s: nat :: s < |f| && f[s].store == STORE_USING && Fits(f[s], size, gc, cap))
            || ((EmptyCount(f) > GC_EMPTY_THRESHOLD || (EmptyCount(f) > 0 && gc))
                && exists s: nat :: s < |f| && f[s].store == STORE_EMPTY && Fits(f[s], size, gc, cap))
    ensures Choose(f, oldest, size, gc, cap).Some? ==>
              var s := Choose(f, oldest, size, gc, cap).value;
              && s < |f| && Fits(f[s], size, gc, cap) && f[s].store in {STORE_USING, STORE_EMPTY}
              && (f[s].store == STORE_EMPTY ==>
                    && (EmptyCount(f) > GC_EMPTY_THRESHOLD || gc)
                    && forall t: nat :: t < |f| && f[t].store == STORE_USING ==> !Fits(f[t], size, gc, cap))
  {
    forall s: nat, st | s < |f| && f[s].store == st && Fits(f[s], size, gc, cap)
      ensures FirstFit(f, oldest, st, size, gc, cap, 0).Some?
    {
      FirstFitComplete(f, oldest, st, size, gc, cap, 0, s);
    }
  }

  /** The callback of the allocator would take this sector: more than the threshold stays free behind a record of this
      size, and no dirty mark forbids it. */
  predicate Takeable(x: Sector, size: nat, gc: bool, cap: nat) {
    && x.ok && Free(x.recs) + size + REMAIN_THRESHOLD < cap
    && x.dirty in (if gc then {DIRTY_FALSE} else {DIRTY_FALSE, DIRTY_TRUE})
  }

  /** Sector `s` is the first one with its status, from the oldest on, that the callback takes. */
  predicate FirstOfKind(f: Flash, oldest: nat, size: nat, gc: bool, cap: nat, s: nat) {
    && oldest < |f| && s < |f| && Takeable(f[s], size, gc, cap)
    && forall t: nat :: t < |f| && f[t].store == f[s].store && StepOf(oldest, t, |f|) < StepOf(oldest, s, |f|) ==>
         !Takeable(f[t], size, gc, cap)
  }

  /** What the allocator is meant to answer: the first sector in use that the callback takes; if there is none, the first
      EMPTY one, as long as it is not the last reserve or a collection asks for it. */
  predicate IsChoice(f: Flash, oldest: nat, size: nat, gc: bool, cap: nat, s: nat) {
    && FirstOfKind(f, oldest, size, gc, cap, s)
    && (|| f[s].store == STORE_USING
        || (&& f[s].store == STORE_EMPTY && (EmptyCount(f) > GC_EMPTY_THRESHOLD || gc)
            && forall t: nat :: t < |f| && f[t].store == STORE_USING ==> !Takeable(f[t], size, gc, cap)))
  }

  /** The answer of a walk is the first sector of its kind that fits. */
  lemma {:induction false} FirstFitFirst(f: Flash, oldest: nat, store: Store, size: nat, gc: bool, cap: nat, j: nat)
    requires oldest < |f| && j <= |f|
    ensures var r := FirstFit(f, oldest, store, size, gc, cap, j);
            r.Some? ==>
              && j <= StepOf(oldest, r.value, |f|)
              && forall t: nat :: t < |f| && f[t].store == store && j <= StepOf(oldest, t, |f|) < StepOf(oldest, r.value, |f|) ==>
                   !Fits(f[t], size, gc, cap)
    decreases |f| - j
  {
    hide Fits;
    if j < |f| {
      var s := SectorAt(oldest, j, |f|);
      assert StepOf(oldest, s, |f|) == j;
      assert forall t: nat :: t < |f| && StepOf(oldest, t, |f|) == j ==> t == s;
      if !(f[s].store == store && Fits(f[s], size, gc, cap)) {
        FirstFitFirst(f, oldest, store, size, gc, cap, j + 1);
      }
    }
  }

  lemma FoundFirst(f: Flash, oldest: nat, store: Store, size: nat, gc: bool, cap: nat)
    requires oldest < |f|
    ensures var r := FirstFit(f, oldest, store, size, gc, cap, 0);
            && (r.Some? ==> r.value < |f| && f[r.value].store == store && FirstOfKind(f, oldest, size, gc, cap, r.value))
            && (r.None? ==> forall s: nat :: s < |f| && f[s].store == store ==> !Takeable(f[s], size, gc, cap))
  {
    hide Free;
    forall s: nat | s < |f| ensures Takeable(f[s], size, gc, cap) <==> Fits(f[s], size, gc, cap) {
      TakeableFits(f[s], size, gc, cap);
    }
    hide Takeable; hide Fits;
    FirstFitFirst(f, oldest, store, size, gc, cap, 0);
    forall s: nat | s < |f| && f[s].store == store && Fits(f[s], size, gc, cap)
      ensures FirstFit(f, oldest, store, size, gc, cap, 0).Some?
    {
      FirstFitComplete(f, oldest, store, size, gc, cap, 0, s);
    }
  }

  lemma TakeableFits(x: Sector, size: nat, gc: bool, cap: nat)
    ensures Takeable(x, size, gc, cap) <==> Fits(x, size, gc, cap)
  {
    hide Free;
  }

  lemma OneChoice(f: Flash, oldest: nat, size: nat, gc: bool, cap: nat, s: nat, t: nat)
    requires IsChoice(f, oldest, size, gc, cap, s) && IsChoice(f, oldest, size, gc, cap, t)
    ensures s == t
  {
    hide Takeable; hide EmptyCount;
    assert s != t ==> StepOf(oldest, s, |f|) != StepOf(oldest, t, |f|);
  }

  /** The allocator answers exactly that, and refuses exactly if there is no such sector. */
  lemma ChoiceExact(f: Flash, oldest: nat, size: nat, gc: bool, cap: nat)
    requires oldest < |f|
    ensures forall s: nat :: Choose(f, oldest, size, gc, cap) == Some(s) <==> IsChoice(f, oldest, size, gc, cap, s)
    ensures Choose(f, oldest, size, gc, cap).None? <==> forall s: nat :: !IsChoice(f, oldest, size, gc, cap, s)
  {
    hide EmptyCount; hide Takeable; hide Fits; hide FirstFit;
    FoundFirst(f, oldest, STORE_USING, size, gc, cap);
    FoundFirst(f, oldest, STORE_EMPTY, size, gc, cap);
    var r := Choose(f, oldest, size, gc, cap);
    if r.Some? {
      assert IsChoice(f, oldest, size, gc, cap, r.value);
      forall s: nat | IsChoice(f, oldest, size, gc, cap, s) ensures s == r.value {
        OneChoice(f, oldest, size, gc, cap, s, r.value);
      }
    } else {
      forall s: nat ensures !IsChoice(f, oldest, size, gc, cap, s) {
        EmptyHere(f, s);
        assert FirstOfKind(f, oldest, size, gc, cap, s) ==> Takeable(f[s], size, gc, cap);
        TakeableOk(f, s, size, gc, cap);
      }
    }
  }

  lemma TakeableOk(f: Flash, s: nat, size: nat, gc: bool, cap: nat)
    ensures s < |f| && Takeable(f[s], size, gc, cap) ==> f[s].ok
  {
  }

  lemma EmptyHere(f: Flash, s: nat)
    ensures s < |f| && f[s].ok && f[s].store == STORE_EMPTY ==> EmptyCount(f) > 0
  {
    EmptyCountWitness(f);
  }

  lemma ChooseInRange(f: Flash, oldest: nat, size: nat, gc: bool, cap: nat)
    requires oldest < |f|
    ensures Choose(f, oldest, size, gc, cap).Some? ==> Choose(f, oldest, size, gc, cap).value < |f|
  {
  }

  /** Collecting a dirty sector always finds room for its records: while an EMPTY sector is left it
      can take any record of a sector, and a sector opened for this collection holds only records
      moved out of it so far, fewer than fill a sector. */
  lemma RoomForMove(f: Flash, oldest: nat, cap: nat, t: nat, from: seq<Rec>, i: nat)
    requires oldest < |f| && t < |f| && f[t].ok && f[t].dirty == DIRTY_FALSE
    requires i < |from| && Free(from) + REMAIN_THRESHOLD < cap
    requires (f[t].store == STORE_EMPTY && f[t].recs == [])
             || (f[t].store == STORE_USING && Free(f[t].recs) <= Used(from[..i]))
    ensures Choose(f, oldest, from[i].len, true, cap).Some?
    ensures f[t].store == STORE_USING ==> f[Choose(f, oldest, from[i].len, true, cap).value].store == STORE_USING
  {
    UsedPrefix(from, i);
    assert Free([]) == 0;
    assert Fits(f[t], from[i].len, true, cap);
    ChooseExact(f, oldest, from[i].len, true, cap);
    EmptyCountWitness(f);
  }
}
