/**
 The sector cache: what a walk over the records of a sector has found, kept up to date by every program
 instead of being found again.
 */
module KvSectorCache {
  import opened FdbDef
  import opened KvEffects
  import opened KvFlash
  import opened Wrappers

  /** `emptyKv` is None where the code writes its failure address: the records have not been walked.  `combined` is the
      number of sectors that the header says belong together; None stands for a sector of its own, as all are. */
  datatype SecInfo =
    SecInfo(sec: nat, ok: bool, store: Store, dirty: Dirty, combined: Option<nat>, remain: int, emptyKv: Option<nat>)

  type SecTable = seq<Option<SecInfo>>

  /** What a fresh traversal of the sector finds. */
  function TrueEmpty(x: Sector): nat { SECTOR_HDR + Free(x.recs) }

  function TrueRemain(x: Sector, cap: nat): int { cap - Free(x.recs) }

  /** The mark of a collection under way is not put into the cache, where the sector stays dirty. */
  predicate DirtyAgrees(cached: Dirty, dirty: Dirty, marked: bool) {
    cached == dirty || (marked && cached == DIRTY_TRUE && dirty == DIRTY_GC)
  }

  ghost predicate Agrees(f: Flash, cap: nat, e: SecInfo, marked: set<nat>) {
    && e.sec < |f| && f[e.sec].ok && e.ok && e.combined.None? && e.store == f[e.sec].store
    && DirtyAgrees(e.dirty, f[e.sec].dirty, e.sec in marked)
    && (e.emptyKv.Some? ==> e.emptyKv.value == TrueEmpty(f[e.sec]) && e.remain == TrueRemain(f[e.sec], cap))
  }

  ghost predicate Once(t: SecTable) {
    forall i, j :: 0 <= i < j < |t| && t[i].Some? && t[j].Some? ==> t[i].value.sec != t[j].value.sec
  }

  /** The cache says of no sector anything that a fresh walk would not find, and has no sector twice.  `marked`
      are the sectors that a collection under way has marked. */
  ghost predicate Coherent(f: Flash, cap: nat, t: SecTable, marked: set<nat>) {
    && (forall i :: 0 <= i < |t| && t[i].Some? ==> Agrees(f, cap, t[i].value, marked))
    && Once(t)
  }

  /** No sector has been traversed yet. */
  predicate Untraversed(t: SecTable) { forall i :: 0 <= i < |t| && t[i].Some? ==> t[i].value.emptyKv.None? }

  /** An entry of a database object that nothing has set yet: zeros. */
  const ZEROED: SecInfo := SecInfo(0, false, STORE_UNUSED, DIRTY_UNUSED, Some(0), 0, Some(0))

  predicate Zeroed(t: SecTable) { t != [] && forall i :: 0 <= i < |t| ==> t[i] == Some(ZEROED) }

  predicate Holds(t: SecTable, i: nat, s: nat) { i < |t| && t[i].Some? && t[i].value.sec == s }

  /** The facts about a sector take the place of what was known of it, or else the last free place. */
  ghost predicate PutAt(t: SecTable, t': SecTable, info: SecInfo, i: nat) {
    && i < |t| && t' == t[i := Some(info)]
    && (|| Holds(t, i, info.sec)
        || (t[i].None? && (forall k :: i < k < |t| ==> t[k].Some?) && forall k: nat :: !Holds(t, k, info.sec)))
  }

  // what the updates do to the table, as functions of its content

  function StoreSet(t: SecTable, s: nat, st: Store): (r: SecTable)
    ensures |r| == |t|
  {
    seq(|t|, i requires 0 <= i < |t| => if Holds(t, i, s) then Some(t[i].value.(store := st)) else t[i])
  }

  function DirtySet(t: SecTable, s: nat): (r: SecTable)
    ensures |r| == |t|
  {
    seq(|t|, i requires 0 <= i < |t| => if Holds(t, i, s) then Some(t[i].value.(dirty := DIRTY_TRUE)) else t[i])
  }

  function EmptySet(t: SecTable, s: nat, empty: nat, cap: nat): (r: SecTable)
    ensures |r| == |t|
  {
    seq(|t|, i requires 0 <= i < |t| =>
      if Holds(t, i, s) then Some(t[i].value.(emptyKv := Some(empty), remain := SECTOR_HDR + cap - empty)) else t[i])
  }

  function Forgotten(t: SecTable, s: nat): (r: SecTable)
    ensures |r| == |t|
  {
    seq(|t|, i requires 0 <= i < |t| => if Holds(t, i, s) then None else t[i])
  }

  /** `get_next_sector_addr`: where the sector behind the one just read begins. */
  function NextSector(info: SecInfo, traversed: nat, n: nat): (r: Option<nat>)
    ensures r.Some? && n > 0 ==> r.value < n
  {
    var size := if info.combined.Some? then info.combined.value else 1;
    if traversed + size > n then None
    else if info.sec + size < n then Some(info.sec + size)
    else Some(0)
  }

  // ---------------------------------------------------------------- the table

  /** `get_sector_from_cache`. */
  method GetSector(table: array<Option<SecInfo>>, s: nat) returns (r: Option<nat>)
    ensures r.Some? ==> Holds(table[..], r.value, s)
    ensures r.None? ==> forall i :: 0 <= i < table.Length ==> !Holds(table[..], i, s)
  {
    for i := 0 to table.Length
      invariant forall k :: 0 <= k < i ==> !Holds(table[..], k, s)
    {
      if table[i].Some? && table[i].value.sec == s {
        return Some(i);
      }
    }
    return None;
  }

  /** `update_sector_cache` with a sector whose header is in order: it replaces what is known of that
      sector, or takes a free place if there is one. */
  method PutSector(table: array<Option<SecInfo>>, info: SecInfo)
    requires Once(table[..])
    modifies table
    ensures Once(table[..])
    ensures (exists i: nat :: PutAt(old(table[..]), table[..], info, i))
            || (&& table[..] == old(table[..])
                && forall i :: 0 <= i < table.Length ==> table[i].Some? && !Holds(table[..], i, info.sec))
    ensures forall i :: 0 <= i < table.Length ==> table[i] == old(table[i]) || table[i] == Some(info)
    ensures forall i :: 0 <= i < table.Length ==> (Holds(table[..], i, info.sec) ==> table[i] == Some(info))
    ensures forall i :: 0 <= i < table.Length && old(table[i]).Some? && old(table[i]).value.sec != info.sec ==>
              table[i] == old(table[i])
    ensures (exists i :: 0 <= i < table.Length && (Holds(old(table[..]), i, info.sec) || old(table[i]).None?)) ==>
              exists i :: 0 <= i < table.Length && table[i] == Some(info)
  {
    var empty: Option<nat> := None;
    for i := 0 to table.Length
      invariant forall k :: 0 <= k < i ==> !Holds(table[..], k, info.sec)
      invariant empty.Some? ==> empty.value < i && table[empty.value].None? && forall k :: empty.value < k < i ==> table[k].Some?
      invariant empty.None? ==> forall k :: 0 <= k < i ==> table[k].Some?
      invariant table[..] == old(table[..])
    {
      if table[i].Some? && table[i].value.sec == info.sec {
        table[i] := Some(info);
        assert PutAt(old(table[..]), table[..], info, i);
        return;
      } else if table[i].None? {
        empty := Some(i);
      }
    }
    assert forall k :: 0 <= k < table.Length && table[..][k].Some? ==> table[..][k].value.sec != info.sec by {
      forall k | 0 <= k < table.Length && table[..][k].Some? ensures table[..][k].value.sec != info.sec {
        assert !Holds(table[..], k, info.sec);
      }
    }
    if empty.Some? {
      table[empty.value] := Some(info);
      assert PutAt(old(table[..]), table[..], info, empty.value);
    }
  }

  /** `update_sector_cache` with a sector that has just been erased. */
  method ForgetSector(table: array<Option<SecInfo>>, s: nat)
    requires Once(table[..])
    modifies table
    ensures table[..] == Forgotten(old(table[..]), s)
  {
    for i := 0 to table.Length
      invariant forall k :: 0 <= k < i ==> !Holds(table[..], k, s)
      invariant table[..] == old(table[..])
    {
      if table[i].Some? && table[i].value.sec == s {
        table[i] := None;
        return;
      }
    }
  }

  /** `update_sector_empty_addr_cache`. */
  method UpdateEmptyAddr(table: array<Option<SecInfo>>, s: nat, empty: nat, cap: nat)
    requires Once(table[..])
    modifies table
    ensures table[..] == EmptySet(old(table[..]), s, empty, cap)
  {
    var i := GetSector(table, s);
    if i.Some? {
      table[i.value] := Some(table[i.value].value.(emptyKv := Some(empty), remain := SECTOR_HDR + cap - empty));
    }
  }

  /** `update_sector_status_store_cache`. */
  method UpdateStore(table: array<Option<SecInfo>>, s: nat, st: Store)
    requires Once(table[..])
    modifies table
    ensures table[..] == StoreSet(old(table[..]), s, st)
  {
    var i := GetSector(table, s);
    if i.Some? {
      table[i.value] := Some(table[i.value].value.(store := st));
    }
  }

  /** The cached dirty mark, as `del_kv` updates it. */
  method UpdateDirty(table: array<Option<SecInfo>>, s: nat)
    requires Once(table[..])
    modifies table
    ensures table[..] == DirtySet(old(table[..]), s)
  {
    var i := GetSector(table, s);
    if i.Some? {
      table[i.value] := Some(table[i.value].value.(dirty := DIRTY_TRUE));
    }
  }

  /** `read_sector_info`: from the cache if it knows enough, else from the flash.  Zeros in the table are taken for
      what is known of the first sector. */
  method ReadSectorInfo(table: array<Option<SecInfo>>, f: Flash, cap: nat, s: nat, traversal: bool, ghost marked: set<nat>)
    returns (info: SecInfo)
    requires FlashOk(f, cap) && s < |f|
    requires Coherent(f, cap, table[..], marked) || (Zeroed(table[..]) && s == 0)
    modifies table
    ensures info.sec == s
    ensures Zeroed(old(table[..])) && s == 0 ==> info == ZEROED && table[..] == old(table[..])
    ensures Coherent(f, cap, old(table[..]), marked) ==>
              && Coherent(f, cap, table[..], marked) && info.ok == f[s].ok && info.combined.None?
              && (info.ok ==> Agrees(f, cap, info, marked))
              && (info.ok && traversal ==> info.emptyKv == Some(TrueEmpty(f[s])) && info.remain == TrueRemain(f[s], cap))
              && (!info.ok ==> info.store == STORE_UNUSED && info.dirty == DIRTY_UNUSED && table[..] == old(table[..]))
    // what has been read is in the table from then on, if there is a place for it
    ensures Coherent(f, cap, old(table[..]), marked) && info.ok
            && (exists i :: 0 <= i < table.Length && (Holds(old(table[..]), i, s) || old(table[i]).None?)) ==>
              exists i :: 0 <= i < table.Length && table[i] == Some(info)
    ensures !traversal && Untraversed(old(table[..])) ==> Untraversed(table[..])
  {
    hide Free; hide Used; hide Tail;
    var i := GetSector(table, s);
    assert Zeroed(table[..]) && s == 0 ==> Holds(table[..], 0, s);
    if i.Some? && (!traversal || table[i.value].value.emptyKv.Some?) {
      return table[i.value].value;
    }
    var x := f[s];
    info := SecInfo(s, false, STORE_UNUSED, DIRTY_UNUSED, None, 0, None);
    if !x.ok {
      return;
    }
    info := info.(ok := true, store := x.store, dirty := x.dirty);
    assert SectorOk(x, cap);
    if traversal {
      var empty, remain := Traverse(x, cap);
      info := info.(emptyKv := Some(empty), remain := remain);
      PutSector(table, info);
    } else if i.None? {
      PutSector(table, info);
    }
  }

  /** The walk over the records of a sector, and the check for the erased tail behind them. */
  method Traverse(x: Sector, cap: nat) returns (empty: nat, remain: int)
    requires SectorOk(x, cap) && x.ok
    ensures empty == TrueEmpty(x) && remain == TrueRemain(x, cap)
  {
    empty, remain := SECTOR_HDR, 0;
    if x.store == STORE_EMPTY {
      remain := cap;
    } else if x.store == STORE_USING {
      remain := cap;
      assert x.recs[..|x.recs|] == x.recs;
      for j := 0 to |x.recs|
        invariant empty == SECTOR_HDR + Used(x.recs[..j]) && remain == cap - Used(x.recs[..j])
      {
        assert x.recs[..j + 1][..j] == x.recs[..j];
        empty, remain := empty + x.recs[j].len, remain - x.recs[j].len;
      }
      var ffAddr := SECTOR_HDR + Tail(x.recs);
      if empty < ffAddr {
        empty := ffAddr;
        remain := SECTOR_HDR + cap - ffAddr;
      }
    }
  }

  // ---------------------------------------------------------------- every step keeps the cache coherent

  /** A new status of a record. */
  lemma StatusCoherent(f: Flash, cap: nat, t: SecTable, marked: set<nat>, a: Addr, st: KvStatus)
    requires Coherent(f, cap, t, marked) && In(f, a)
    ensures Coherent(WithStatus(f, a, st), cap, t, marked)
  {
    hide Free; hide Used;
    SpaceOfStatus(f[a.sec].recs, a.idx, st);
    SameCoherent(f, WithStatus(f, a, st), cap, t, marked);
  }

  lemma SameCoherent(f: Flash, g: Flash, cap: nat, t: SecTable, marked: set<nat>)
    requires Coherent(f, cap, t, marked) && |g| == |f|
    requires forall s: nat :: s < |f| ==> Free(g[s].recs) == Free(f[s].recs) && g[s] == f[s].(recs := g[s].recs)
    ensures Coherent(g, cap, t, marked)
  {
    hide Free;
    forall i | 0 <= i < |t| && t[i].Some? ensures Agrees(g, cap, t[i].value, marked) {
      assert Agrees(f, cap, t[i].value, marked);
    }
  }

  /** The first record opens a sector. */
  lemma OpenedCoherent(f: Flash, cap: nat, t: SecTable, marked: set<nat>, s: nat)
    requires Coherent(f, cap, t, marked) && s < |f|
    ensures Coherent(Opened(f, s), cap, StoreSet(t, s, STORE_USING), marked)
  {
    hide Free;
  }

  /** A record has been added, and the free address behind it was put into the cache on the way.  The two agree
      because the sector takes the record; otherwise a fresh traversal would find another free address. */
  lemma AppendedCoherent(f: Flash, cap: nat, t: SecTable, marked: set<nat>, s: nat, r: Rec)
    requires Coherent(f, cap, t, marked) && s < |f| && r.hdr && RecOk(r, f[s].recs == []) && Takes(f[s].recs, r)
    ensures var u := EmptySet(t, s, TrueEmpty(f[s]) + r.len, cap);
            && Coherent(WithNew(f, s, r), cap, u, marked)
            && forall i: nat :: Holds(t, i, s) ==> Holds(u, i, s) && u[i].value.emptyKv == Some(TrueEmpty(WithNew(f, s, r)[s]))
  {
    FreeGrows(f[s].recs, r);
    hide Free; hide Used; hide Tail; hide RecOk; hide Takes;
    var g, u := WithNew(f, s, r), EmptySet(t, s, TrueEmpty(f[s]) + r.len, cap);
    forall i | 0 <= i < |u| && u[i].Some? ensures Agrees(g, cap, u[i].value, marked) {
      assert Agrees(f, cap, t[i].value, marked);
    }
  }

  /** Exactly then: a cached free address survives a fresh traversal if and only if the sector takes the record. */
  lemma AppendedExact(f: Flash, s: nat, r: Rec)
    requires s < |f| && r.crcOk && RecOk(r, f[s].recs == [])
    ensures TrueEmpty(f[s]) + r.len == TrueEmpty(WithNew(f, s, r)[s]) <==> Takes(f[s].recs, r)
    ensures TrueEmpty(f[s]) + r.len >= TrueEmpty(WithNew(f, s, r)[s])
  {
    FreeGrows(f[s].recs, r);
    SpaceGrows(f[s].recs, r);
  }

  /** A sector gets dirty; the mark of a collection is not cached. */
  lemma MarkedCoherent(f: Flash, cap: nat, t: SecTable, marked: set<nat>, s: nat)
    requires Coherent(f, cap, t, marked) && s < |f|
    ensures f[s].dirty == DIRTY_FALSE ==> Coherent(Marked(f, s), cap, DirtySet(t, s), marked)
    ensures f[s].dirty in {DIRTY_TRUE, DIRTY_GC} ==>
              Coherent(f[s := f[s].(dirty := DIRTY_GC)], cap, t, marked + {s})
  {
    hide Free;
    if f[s].dirty in {DIRTY_TRUE, DIRTY_GC} {
      var g := f[s := f[s].(dirty := DIRTY_GC)];
      forall i | 0 <= i < |t| && t[i].Some? ensures Agrees(g, cap, t[i].value, marked + {s}) {
        assert Agrees(f, cap, t[i].value, marked);
      }
    }
  }

  /** A sector has been collected. */
  lemma FormattedCoherent(f: Flash, cap: nat, t: SecTable, marked: set<nat>, s: nat)
    requires Coherent(f, cap, t, marked) && s < |f|
    ensures Coherent(f[s := FORMATTED], cap, Forgotten(t, s), marked - {s})
  {
    hide Free;
    var u := Forgotten(t, s);
    forall i | 0 <= i < |u| && u[i].Some? ensures Agrees(f[s := FORMATTED], cap, u[i].value, marked - {s}) {
      assert !Holds(t, i, s) && Agrees(f, cap, t[i].value, marked);
    }
  }

  lemma CoherentOnce(f: Flash, cap: nat, t: SecTable, marked: set<nat>)
    requires Coherent(f, cap, t, marked)
    ensures Once(t)
  {
  }

  /** While no sector has been traversed, nothing about its records can be wrong. */
  lemma UntraversedCoherent(f: Flash, g: Flash, cap: nat, t: SecTable, marked: set<nat>)
    requires Coherent(f, cap, t, marked) && Untraversed(t) && |g| == |f|
    requires forall s: nat :: s < |f| ==> g[s] == f[s].(recs := g[s].recs)
    ensures Coherent(g, cap, t, marked)
  {
    forall i | 0 <= i < |t| && t[i].Some? ensures Agrees(g, cap, t[i].value, marked) {
      assert Agrees(f, cap, t[i].value, marked);
    }
  }

  /** Zeros say of the first sector what no sector in order is. */
  lemma ZeroedIncoherent(f: Flash, cap: nat, t: SecTable, marked: set<nat>)
    ensures Coherent(f, cap, t, marked) ==> !Zeroed(t)
  {
    if t != [] && t[0] == Some(ZEROED) {
      assert !Agrees(f, cap, t[0].value, marked);
    }
  }

  lemma ForgottenUntraversed(t: SecTable, s: nat)
    ensures Untraversed(t) ==> Untraversed(Forgotten(t, s))
  {
  }

  lemma ClearedCoherent(f: Flash, cap: nat, t: SecTable)
    requires forall i :: 0 <= i < |t| ==> t[i].None?
    ensures Coherent(f, cap, t, {}) && Untraversed(t)
  {
  }
}
