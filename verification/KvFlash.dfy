/**
 The flash content of a key-value database, at the level of records.

 A sector is a header (magic word, store status, dirty status) and the records programmed into it,
 in address order.  A power cut leaves one such content behind, so everything a reboot may rely on
 is stated here, as predicates over a `Flash` value.
 */
module KvFlash {
  import opened FdbDef

  type Key = seq<bv8>
  type Value = seq<bv8>

  // sizes of the C structs with a write granularity of one bit
  const KV_HDR: nat := 24
  const SECTOR_HDR: nat := 16
  const NAME_MAX: nat := 64
  const REMAIN_THRESHOLD: nat := KV_HDR + NAME_MAX
  const GC_EMPTY_THRESHOLD: nat := 1

  /** A record as `read_kv` reports it.  `hdr` says that the header behind the status byte has been
      programmed; without it the length field is still erased and the record has no magic word.  `key` and
      `value` are what has been programmed of them.  `len` is the number of bytes a walk counts for it. */
  datatype Rec = Rec(status: KvStatus, hdr: bool, key: Key, value: Value, len: nat, crcOk: bool)

  /** `ok` is the sector header check; an erased sector without a header fails it. */
  datatype Sector = Sector(ok: bool, store: Store, dirty: Dirty, recs: seq<Rec>)

  type Flash = seq<Sector>

  datatype Addr = Addr(sec: nat, idx: nat)

  const ERASED: Sector := Sector(false, STORE_UNUSED, DIRTY_UNUSED, [])
  const FORMATTED: Sector := Sector(true, STORE_EMPTY, DIRTY_FALSE, [])

  /** The name of a record as `read_kv` leaves it in its buffer of `NAME_MAX` bytes: of a name that fills
      the buffer the last byte gives way to the terminator. */
  function ReadName(key: Key): Key {
    if |key| < NAME_MAX then key else key[..NAME_MAX - 1] + [0]
  }

  /** A scan finds a record under its name exactly if the name does not fill the buffer.  Names are C strings. */
  lemma NameFoundExact(written: Key, sought: Key)
    requires |written| <= NAME_MAX && forall i :: 0 <= i < |sought| ==> sought[i] != 0
    ensures |written| == |sought| && ReadName(written) == sought <==> written == sought && |sought| < NAME_MAX
  {
    if |written| == NAME_MAX {
      assert ReadName(written)[NAME_MAX - 1] == 0;
    }
  }

  /** A name of exactly `NAME_MAX` bytes can be written, but no scan finds a record under it. */
  lemma FullNameNeverFound(written: Key, sought: Key)
    requires |sought| == NAME_MAX && forall i :: 0 <= i < |sought| ==> sought[i] != 0
    ensures ReadName(written) != sought
  {
    if |written| >= NAME_MAX {
      assert ReadName(written)[NAME_MAX - 1] == 0;
    }
  }

  function KvLen(key: Key, value: Value): nat { KV_HDR + |key| + |value| }

  function NewRec(key: Key, value: Value): Rec { Rec(WRITE, true, key, value, KvLen(key, value), true) }

  // ---------------------------------------------------------------- addressing

  predicate In(f: Flash, a: Addr) { a.sec < |f| && a.idx < |f[a.sec].recs| }

  function At(f: Flash, a: Addr): Rec
    requires In(f, a)
  {
    f[a.sec].recs[a.idx]
  }

  predicate Live(f: Flash, a: Addr) { In(f, a) && At(f, a).status == WRITE }

  predicate Pend(f: Flash, a: Addr) { In(f, a) && At(f, a).status == PRE_DELETE }

  predicate Kept(f: Flash, a: Addr) { Live(f, a) || Pend(f, a) }

  /** A record whose programming was cut after its header: the recovery walk finds it by its magic
      word.  The status byte alone leaves nothing to find. */
  predicate Torn(f: Flash, a: Addr) { In(f, a) && At(f, a).status == PRE_WRITE && At(f, a).hdr }

  function WithRec(f: Flash, a: Addr, r: Rec): (g: Flash)
    requires In(f, a)
  {
    f[a.sec := f[a.sec].(recs := f[a.sec].recs[a.idx := r])]
  }

  function WithStatus(f: Flash, a: Addr, st: KvStatus): Flash
    requires In(f, a)
  {
    WithRec(f, a, At(f, a).(status := st))
  }

  function WithNew(f: Flash, s: nat, r: Rec): Flash
    requires s < |f|
  {
    f[s := f[s].(recs := f[s].recs + [r])]
  }

  // ---------------------------------------------------------------- space

  function Used(recs: seq<Rec>): nat {
    if recs == [] then 0 else Used(recs[..|recs| - 1]) + recs[|recs| - 1].len
  }

  /** The length without the bytes at the end that look erased. */
  function Trimmed(s: seq<bv8>): (n: nat)
    ensures n <= |s|
    ensures n == |s| <==> s == [] || s[|s| - 1] != ERASED_BYTE
  {
    if s == [] || s[|s| - 1] != ERASED_BYTE then |s| else Trimmed(s[..|s| - 1])
  }

  /** From its first byte on, how much of a record is visibly programmed. */
  function Prog(r: Rec): nat { if r.hdr then KV_HDR + Trimmed(r.key + r.value) else 1 }

  /** The offset that a traversal takes for the first free one, and at which the next record begins: behind
      what it has counted, and behind the last programmed byte.  A status byte that a cut left alone behind
      another record is not counted. */
  function Free(recs: seq<Rec>): (n: nat)
    ensures n >= Used(recs)
  {
    if recs == [] then 0
    else
      var tail := Free(recs[..|recs| - 1]) + Prog(recs[|recs| - 1]);
      if Used(recs) < tail then tail else Used(recs)
  }

  /** The offset at which the erased tail of the sector begins: behind the last programmed byte. */
  function Tail(recs: seq<Rec>): nat {
    if recs == [] then 0 else Free(recs[..|recs| - 1]) + Prog(recs[|recs| - 1])
  }

  /** Behind record `r`, put at the first free offset, the next traversal will again find the first free one:
      nothing is left uncounted in the sector, or the last byte of `r` does not look erased. */
  predicate Takes(recs: seq<Rec>, r: Rec) { Used(recs) == Free(recs) || Prog(r) == r.len }

  /** No record was put onto the last bytes of a complete one. */
  predicate Apart(recs: seq<Rec>) {
    recs != [] ==> (var i := |recs| - 1; Apart(recs[..i]) && (recs[i].crcOk ==> Takes(recs[..i], recs[i])))
  }

  function EmptyCount(f: Flash): nat {
    if f == [] then 0
    else EmptyCount(f[..|f| - 1]) + if f[|f| - 1].ok && f[|f| - 1].store == STORE_EMPTY then 1 else 0
  }

  lemma {:induction false} UsedSameLengths(p: seq<Rec>, q: seq<Rec>)
    requires |p| == |q|
    requires forall i :: 0 <= i < |p| ==> p[i].len == q[i].len
    ensures Used(p) == Used(q)
  {
    if p != [] {
      UsedSameLengths(p[..|p| - 1], q[..|q| - 1]);
    }
  }

  lemma {:induction false} UsedPrefix(recs: seq<Rec>, i: nat)
    requires i < |recs|
    ensures Used(recs[..i + 1]) == Used(recs[..i]) + recs[i].len
    ensures Used(recs[..i + 1]) <= Used(recs)
    decreases |recs|
  {
    assert recs[..i + 1][..i] == recs[..i];
    if i == |recs| - 1 {
      assert recs[..i + 1] == recs;
    } else {
      var t := recs[..|recs| - 1];
      UsedPrefix(t, i);
      assert t[..i + 1] == recs[..i + 1];
    }
  }

  lemma UsedGrows(recs: seq<Rec>, r: Rec)
    ensures Used(recs + [r]) == Used(recs) + r.len
  {
    assert (recs + [r])[..|recs|] == recs;
  }

  lemma SpaceGrows(recs: seq<Rec>, r: Rec)
    ensures Used(recs + [r]) == Used(recs) + r.len
    ensures Tail(recs + [r]) == Free(recs) + Prog(r)
    ensures Apart(recs + [r]) <==> Apart(recs) && (r.crcOk ==> Takes(recs, r))
  {
    hide Prog; hide Takes; hide Free;
    assert (recs + [r])[..|recs|] == recs;
  }

  /** A record with a header takes at most its length; a bare status byte takes one byte, or counts as a header
      in the first slot. */
  lemma FreeGrows(recs: seq<Rec>, r: Rec)
    requires RecOk(r, recs == [])
    ensures Free(recs) < Free(recs + [r]) <= Free(recs) + if r.hdr || recs == [] then r.len else 1
    ensures Takes(recs, r) && r.hdr ==> Free(recs + [r]) == Free(recs) + r.len
    ensures Used(recs) == Free(recs) && (r.hdr || recs == []) ==> Used(recs + [r]) == Free(recs + [r])
  {
    hide Apart;
    SpaceGrows(recs, r);
  }

  /** The status of a record says nothing about space. */
  predicate SameShape(r: Rec, q: Rec) { q.len == r.len && Prog(q) == Prog(r) && q.crcOk == r.crcOk }

  lemma {:induction false} SpaceSame(p: seq<Rec>, q: seq<Rec>)
    requires |p| == |q|
    requires forall i :: 0 <= i < |p| ==> SameShape(p[i], q[i])
    ensures Used(p) == Used(q) && Free(p) == Free(q) && Apart(p) == Apart(q)
  {
    if p != [] {
      hide Prog;
      SpaceSame(p[..|p| - 1], q[..|q| - 1]);
      assert SameShape(p[|p| - 1], q[|q| - 1]);
    }
  }

  lemma SpaceOfStatus(recs: seq<Rec>, i: nat, st: KvStatus)
    requires i < |recs|
    ensures var more := recs[i := recs[i].(status := st)];
            Used(more) == Used(recs) && Free(more) == Free(recs) && Apart(more) == Apart(recs)
  {
    hide Used; hide Free; hide Apart;
    SpaceSame(recs, recs[i := recs[i].(status := st)]);
  }

  lemma {:induction false} FreeRises(recs: seq<Rec>, i: nat)
    requires i <= |recs|
    ensures Free(recs[..i]) <= Free(recs)
    decreases |recs|
  {
    if i < |recs| {
      var init := recs[..|recs| - 1];
      FreeRises(init, i);
      assert init[..i] == recs[..i];
    } else {
      assert recs[..i] == recs;
    }
  }

  /** What `Apart` means: each complete record ends before the next one begins, and before the free space. */
  lemma {:induction false} ApartExact(recs: seq<Rec>)
    requires forall i :: 0 <= i < |recs| ==> RecOk(recs[i], i == 0)
    ensures Apart(recs) <==>
            forall i, j :: 0 <= i < j <= |recs| && recs[i].crcOk ==> Free(recs[..i]) + recs[i].len <= Free(recs[..j])
    decreases |recs|
  {
    hide Free; hide Prog;
    if recs != [] {
      var n, init := |recs| - 1, recs[..|recs| - 1];
      assert forall i :: 0 <= i <= n ==> init[..i] == recs[..i];
      assert recs[..|recs|] == recs && init + [recs[n]] == recs;
      ApartExact(init);
      SpaceGrows(init, recs[n]);
      LastApart(init, recs[n]);
      FreeRises(recs, n);
    }
  }

  /** A record put behind a status byte left alone stays apart from the next one exactly if its last byte does not
      look erased. */
  lemma BareByteBefore(a: Rec, b: Rec, r: Rec)
    requires RecOk(a, true) && RecOk(b, false) && RecOk(r, false) && a.crcOk && !b.hdr && r.crcOk
    ensures Apart([a, b, r]) <==> EndsSolid(r)
  {
    assert [] + [a] == [a] && [a] + [b] == [a, b] && [a, b] + [r] == [a, b, r];
    hide Prog; hide Free; hide Apart;
    SpaceGrows([], a);
    FreeGrows([], a);
    SpaceGrows([a], b);
    FreeGrows([a], b);
    SpaceGrows([a, b], r);
    NoneApart();
  }

  lemma FreeOfNone()
    ensures Free([]) == 0 && Used([]) == 0
  {
  }

  lemma NoneApart()
    ensures Apart([]) && Used([]) == Free([])
  {
  }

  lemma LastApart(recs: seq<Rec>, r: Rec)
    requires RecOk(r, recs == [])
    ensures r.crcOk ==> (Takes(recs, r) <==> Free(recs) + r.len <= Free(recs + [r]))
  {
    SpaceGrows(recs, r);
  }

  function EmptyBit(x: Sector): nat { if x.ok && x.store == STORE_EMPTY then 1 else 0 }

  lemma {:induction false} EmptyCountUpdate(f: Flash, s: nat, x: Sector)
    requires s < |f|
    ensures EmptyCount(f[s := x]) == EmptyCount(f) - EmptyBit(f[s]) + EmptyBit(x)
    decreases |f|
  {
    var g := f[s := x];
    if s == |f| - 1 {
      assert g[..s] == f[..s];
    } else {
      EmptyCountUpdate(f[..|f| - 1], s, x);
      assert g[..|g| - 1] == f[..|f| - 1][s := x];
    }
  }

  lemma CountRec(f: Flash, a: Addr, r: Rec)
    requires In(f, a)
    ensures EmptyCount(WithRec(f, a, r)) == EmptyCount(f)
  {
    EmptyCountUpdate(f, a.sec, f[a.sec].(recs := f[a.sec].recs[a.idx := r]));
  }

  lemma CountNew(f: Flash, s: nat, r: Rec)
    requires s < |f|
    ensures EmptyCount(WithNew(f, s, r)) == EmptyCount(f)
  {
    EmptyCountUpdate(f, s, f[s].(recs := f[s].recs + [r]));
  }

  lemma {:induction false} EmptyCountWitness(f: Flash)
    ensures EmptyCount(f) > 0 <==> exists s: nat :: s < |f| && f[s].ok && f[s].store == STORE_EMPTY
  {
    if f != [] {
      EmptyCountWitness(f[..|f| - 1]);
      assert forall s: nat :: s < |f| - 1 ==> f[..|f| - 1][s] == f[s];
      if s: nat :| s < |f| && f[s].ok && f[s].store == STORE_EMPTY {
        assert s < |f| - 1 ==> f[..|f| - 1][s].store == STORE_EMPTY;
      }
    }
  }

  // ---------------------------------------------------------------- well-formed content

  predicate RecOk(r: Rec, first: bool) {
    && r.status != UNUSED
    && (r.status in {WRITE, PRE_DELETE, DELETED} ==> r.crcOk)
    && (r.crcOk ==> r.hdr && r.len == KvLen(r.key, r.value) && |r.key| < NAME_MAX)
    && (if r.hdr then r.len >= KvLen(r.key, r.value)
        else r.key == r.value == [] && r.len == if first then KV_HDR else 0)
  }

  /** Every used sector keeps more than the threshold free: what the allocator's test leaves over. */
  predicate SectorOk(x: Sector, cap: nat) {
    && (!x.ok ==> x == ERASED)
    && (x.ok ==> x.store in {STORE_EMPTY, STORE_USING} && x.dirty != DIRTY_UNUSED)
    && (x.store == STORE_EMPTY ==> x == FORMATTED)
    && (forall i :: 0 <= i < |x.recs| ==> RecOk(x.recs[i], i == 0))
    && Free(x.recs) + REMAIN_THRESHOLD < cap
    && Apart(x.recs)
  }

  predicate FlashOk(f: Flash, cap: nat) {
    forall s: nat :: s < |f| ==> SectorOk(f[s], cap)
  }

  // ---------------------------------------------------------------- what the flash stores

  /** What a flash content must still be good for: the map before and after the operation under way,
      the keys that collecting a sector without room for them has cost, the number of EMPTY sectors that
      stay in reserve, and whether a collection could get at every pending record. */
  datatype Promise =
    Promise(before: map<Key, Value>, after: map<Key, Value>, lost: set<Key>, reserve: nat, tidy: bool)

  function Exactly(m: map<Key, Value>): Promise { Promise(m, m, {}, 0, false) }

  function Changing(m: map<Key, Value>, m': map<Key, Value>): Promise { Promise(m, m', {}, 1, false) }

  predicate Bound(m: map<Key, Value>, r: Rec) { r.key in m && m[r.key] == r.value }

  predicate Says(p: Promise, r: Rec) { Bound(p.before, r) || Bound(p.after, r) }

  predicate Owed(p: Promise, k: Key) { k in p.before && k in p.after && k !in p.lost }

  ghost predicate Stored(f: Flash, k: Key) { exists a :: Kept(f, a) && At(f, a).key == k }

  ghost predicate HasLive(f: Flash, k: Key) { exists a :: Live(f, a) && At(f, a).key == k }

  ghost predicate OneLive(f: Flash) {
    forall a, b :: Live(f, a) && Live(f, b) && At(f, a).key == At(f, b).key ==> a == b
  }

  /** The flash holds, for each key, its value before or its value after: every record that is live
      or about to be deleted carries one of the two, a key that both maps have is still there, and
      no key has two live records.  With `Exactly(m)` nothing is in doubt. */
  ghost predicate Keeps(f: Flash, p: Promise) {
    && (forall a :: Kept(f, a) ==> Says(p, At(f, a)))
    && (forall k :: Owed(p, k) ==> Stored(f, k))
    && OneLive(f)
  }

  /** What a power cut may leave behind. */
  ghost predicate Recoverable(f: Flash, cap: nat, p: Promise) {
    FlashOk(f, cap) && Keeps(f, p) && EmptyCount(f) >= p.reserve && (p.tidy ==> PendingDirty(f))
  }

  /** Lookups of the live records answer exactly the map `m`. */
  ghost predicate Reads(f: Flash, m: map<Key, Value>) {
    && (forall a :: Live(f, a) ==> Bound(m, At(f, a)))
    && (forall k :: k in m ==> HasLive(f, k))
    && OneLive(f)
  }

  ghost predicate NoPending(f: Flash) { forall a :: !Pend(f, a) }

  ghost predicate NoTorn(f: Flash) { forall a :: !Torn(f, a) }

  /** Every pending record lies in a sector that a collection would empty. */
  ghost predicate PendingDirty(f: Flash) {
    forall b :: Pend(f, b) ==> f[b.sec].dirty in {DIRTY_TRUE, DIRTY_GC}
  }

  lemma NothingPendingDirty(f: Flash)
    requires NoPending(f)
    ensures PendingDirty(f)
  {
  }

  /** No record becomes pending, and no sector clean. */
  lemma StaysTidy(f: Flash, g: Flash)
    requires forall b :: Pend(g, b) ==> Pend(f, b) && f[b.sec].dirty.Rank() <= g[b.sec].dirty.Rank()
    ensures PendingDirty(f) ==> PendingDirty(g)
  {
  }

  // ---------------------------------------------------------------- the free space stays known

  /** A traversal counts everything that is programmed: no status byte is left alone behind another record. */
  predicate Steady(f: Flash) { forall s: nat :: s < |f| ==> Used(f[s].recs) == Free(f[s].recs) }

  predicate EndsSolid(r: Rec) { Prog(r) == r.len }

  /** No record that may be moved ends in a byte that looks erased. */
  predicate Solid(f: Flash) {
    forall s: nat, i: nat :: s < |f| && i < |f[s].recs| && Kept(f, Addr(s, i)) ==> EndsSolid(At(f, Addr(s, i)))
  }

  /** Wherever a kept record is put, the next one will not be put onto its end: for one of two reasons. */
  predicate CalmBy(f: Flash, steady: bool) { if steady then Steady(f) else Solid(f) }

  predicate Calm(f: Flash) { CalmBy(f, true) || CalmBy(f, false) }

  lemma CalmTakes(f: Flash, steady: bool, t: nat, r: Rec)
    requires t < |f| && CalmBy(f, steady) && (steady || EndsSolid(r))
    ensures Takes(f[t].recs, r)
  {
  }

  lemma KeptSolid(f: Flash, steady: bool, a: Addr, r: Rec)
    requires CalmBy(f, steady) && Kept(f, a) && SameShape(r, At(f, a))
    ensures !steady ==> EndsSolid(r)
  {
  }

  lemma ReadsIsKeeps(f: Flash, m: map<Key, Value>)
    requires NoPending(f)
    ensures Reads(f, m) <==> Keeps(f, Exactly(m))
  {
    if Reads(f, m) {
      forall k | k in m ensures Stored(f, k) {
        var a :| Live(f, a) && At(f, a).key == k;
        assert Kept(f, a);
      }
    }
    if Keeps(f, Exactly(m)) {
      forall a | Live(f, a) ensures Bound(m, At(f, a)) {
        assert Kept(f, a);
      }
      forall k | k in m ensures HasLive(f, k) {
        assert Owed(Exactly(m), k);
        var a :| Kept(f, a) && At(f, a).key == k;
        assert Live(f, a);
      }
    }
  }

  // ---------------------------------------------------------------- one program or erase

  lemma Rewritten(f: Flash, a: Addr, r: Rec)
    requires In(f, a)
    ensures |WithRec(f, a, r)| == |f|
    ensures forall b :: In(WithRec(f, a, r), b) <==> In(f, b)
    ensures forall b :: In(f, b) ==> At(WithRec(f, a, r), b) == if b == a then r else At(f, b)
  {
  }

  lemma Extended(f: Flash, s: nat, r: Rec)
    requires s < |f|
    ensures |WithNew(f, s, r)| == |f|
    ensures forall b :: In(WithNew(f, s, r), b) <==> In(f, b) || b == Addr(s, |f[s].recs|)
    ensures forall b :: In(f, b) ==> At(WithNew(f, s, r), b) == At(f, b)
    ensures At(WithNew(f, s, r), Addr(s, |f[s].recs|)) == r
  {
  }

  /** Same records: only sector headers differ. */
  predicate SameRecs(f: Flash, g: Flash) {
    |f| == |g| && forall s: nat :: s < |f| ==> f[s].recs == g[s].recs
  }

  /** Every live record of `g` was live in `f`. */
  lemma NoLiveAfter(f: Flash, g: Flash, k: Key)
    requires !HasLive(f, k)
    requires forall a :: Live(g, a) && At(g, a).key == k ==> Live(f, a) && At(f, a).key == k
    ensures !HasLive(g, k)
  {
  }

  lemma KeepsHeaders(f: Flash, g: Flash, p: Promise)
    requires SameRecs(f, g) && Keeps(f, p)
    ensures Keeps(g, p)
  {
    assert forall a :: In(g, a) ==> In(f, a) && At(f, a) == At(g, a);
    forall k | Owed(p, k) ensures Stored(g, k) {
      var a :| Kept(f, a) && At(f, a).key == k;
      assert Kept(g, a);
    }
  }

  /** Programming a record that is neither live nor pending, before and after. */
  lemma KeepsIdle(f: Flash, a: Addr, r: Rec, p: Promise)
    requires In(f, a) && !Kept(f, a) && r.status !in {WRITE, PRE_DELETE}
    requires Keeps(f, p)
    ensures Keeps(WithRec(f, a, r), p)
  {
    var g := WithRec(f, a, r);
    Rewritten(f, a, r);
    forall k | Owed(p, k) ensures Stored(g, k) {
      var b :| Kept(f, b) && At(f, b).key == k;
      assert Kept(g, b);
    }
  }

  lemma KeepsAppend(f: Flash, s: nat, r: Rec, p: Promise)
    requires s < |f| && r.status !in {WRITE, PRE_DELETE}
    requires Keeps(f, p)
    ensures Keeps(WithNew(f, s, r), p)
  {
    var g := WithNew(f, s, r);
    Extended(f, s, r);
    forall k | Owed(p, k) ensures Stored(g, k) {
      var b :| Kept(f, b) && At(f, b).key == k;
      assert Kept(g, b);
    }
  }

  /** WRITE to PRE_DELETE: the record still counts. */
  lemma KeepsPreDelete(f: Flash, a: Addr, p: Promise)
    requires Live(f, a) && Keeps(f, p)
    ensures Keeps(WithStatus(f, a, PRE_DELETE), p)
    ensures !HasLive(WithStatus(f, a, PRE_DELETE), At(f, a).key)
  {
    var r := At(f, a).(status := PRE_DELETE);
    var g := WithRec(f, a, r);
    Rewritten(f, a, r);
    forall b | Kept(g, b) ensures Says(p, At(g, b)) {
      assert Kept(f, b);
    }
    forall k | Owed(p, k) ensures Stored(g, k) {
      var b :| Kept(f, b) && At(f, b).key == k;
      assert Kept(g, b);
    }
    if b :| Live(g, b) && At(g, b).key == At(f, a).key {
      assert Live(f, b);
    }
  }

  /** Committing a record: PRE_WRITE to WRITE. */
  lemma KeepsCommit(f: Flash, a: Addr, p: Promise)
    requires In(f, a) && At(f, a).status == PRE_WRITE
    requires Says(p, At(f, a))
    requires !HasLive(f, At(f, a).key) && Keeps(f, p)
    ensures Keeps(WithStatus(f, a, WRITE), p)
  {
    var r := At(f, a).(status := WRITE);
    var g := WithRec(f, a, r);
    Rewritten(f, a, r);
    forall b | Kept(g, b) ensures Says(p, At(g, b)) {
      assert b != a ==> Kept(f, b);
    }
    forall k | Owed(p, k) ensures Stored(g, k) {
      var b :| Kept(f, b) && At(f, b).key == k;
      assert Kept(g, b);
    }
    forall b, c | Live(g, b) && Live(g, c) && At(g, b).key == At(g, c).key ensures b == c {
      assert b != a ==> Live(f, b);
      assert c != a ==> Live(f, c);
    }
  }

  /** Dropping a record: fine as long as its key is stored elsewhere or need not stay. */
  lemma KeepsDrop(f: Flash, a: Addr, other: Addr, p: Promise)
    requires Kept(f, a) && Keeps(f, p)
    requires (Kept(f, other) && other != a && At(f, other).key == At(f, a).key)
             || !Owed(p, At(f, a).key)
    ensures Keeps(WithStatus(f, a, DELETED), p)
  {
    var r := At(f, a).(status := DELETED);
    var g := WithRec(f, a, r);
    Rewritten(f, a, r);
    forall b | Kept(g, b) ensures Says(p, At(g, b)) {
      assert Kept(f, b);
    }
    forall k | Owed(p, k) ensures Stored(g, k) {
      var b :| Kept(f, b) && At(f, b).key == k;
      assert Kept(g, if b == a then other else b);
    }
    forall b, c | Live(g, b) && Live(g, c) && At(g, b).key == At(g, c).key ensures b == c {
      assert Live(f, b) && Live(f, c);
    }
  }

  /** Erasing a sector: exactly the keys are lost that only it still held. */
  lemma KeepsErase(f: Flash, s: nat, x: Sector, p: Promise, left: set<Key>)
    requires s < |f| && x.recs == [] && Keeps(f, p)
    requires forall k :: Stored(f, k) && !Stored(f[s := x], k) ==> k in left
    ensures Keeps(f[s := x], p.(lost := p.lost + left))
  {
    var g := f[s := x];
    assert forall b :: In(g, b) ==> In(f, b) && At(g, b) == At(f, b);
    forall k | Owed(p, k) && k !in left ensures Stored(g, k) {
      assert Stored(f, k);
    }
    forall b, c | Live(g, b) && Live(g, c) && At(g, b).key == At(g, c).key ensures b == c {
      assert Live(f, b) && Live(f, c);
    }
  }

  lemma OtherReserve(f: Flash, p: Promise, q: Promise)
    requires Keeps(f, p) && q == p.(reserve := q.reserve)
    ensures Keeps(f, q)
  {
    assert forall k :: Owed(q, k) ==> Owed(p, k);
  }

  lemma OtherTidy(f: Flash, p: Promise, q: Promise)
    requires Keeps(f, p) && q == p.(tidy := q.tidy)
    ensures Keeps(f, q)
  {
    assert forall k :: Owed(q, k) ==> Owed(p, k);
  }

  /** A promise may be weakened: more keys given up. */
  lemma KeepsWeaker(f: Flash, p: Promise, lost: set<Key>)
    requires Keeps(f, p) && p.lost <= lost
    ensures Keeps(f, p.(lost := lost))
  {
  }

  // ---------------------------------------------------------------- from promise to map

  lemma PromiseOpens(f: Flash, m: map<Key, Value>, m': map<Key, Value>)
    requires Keeps(f, Exactly(m))
    ensures Keeps(f, Changing(m, m'))
  {
    forall k | k in m && k in m' ensures Stored(f, k) {
      assert Owed(Exactly(m), k);
    }
    assert forall k :: Owed(Changing(m, m'), k) ==> k in m && k in m';
  }

  /** Once the new record is live and nothing is pending, the flash reads as the new map. */
  lemma SetSettles(f: Flash, m: map<Key, Value>, key: Key, value: Value, a: Addr)
    requires Keeps(f, Changing(m, m[key := value])) && NoPending(f)
    requires Live(f, a) && At(f, a).key == key && At(f, a).value == value
    ensures Reads(f, m[key := value])
  {
    var p, m' := Changing(m, m[key := value]), m[key := value];
    forall b | Live(f, b) ensures Bound(m', At(f, b)) {
      assert Kept(f, b);
      assert At(f, b).key == key ==> b == a;
    }
    forall k | k in m' ensures HasLive(f, k) {
      if k != key {
        assert Owed(p, k);
        var b :| Kept(f, b) && At(f, b).key == k;
        assert Live(f, b);
      }
    }
  }

  /** Deleting: once no record of the key is kept, the flash reads as the map without it. */
  lemma DeleteSettles(f: Flash, m: map<Key, Value>, key: Key)
    requires Keeps(f, Changing(m, m - {key})) && NoPending(f) && !HasLive(f, key)
    ensures Reads(f, m - {key})
  {
    var p, m' := Changing(m, m - {key}), m - {key};
    forall b | Live(f, b) ensures Bound(m', At(f, b)) {
      assert Kept(f, b);
    }
    forall k | k in m' ensures HasLive(f, k) {
      assert Owed(p, k);
      var b :| Kept(f, b) && At(f, b).key == k;
      assert Live(f, b);
    }
  }

  /** Two maps that the same flash reads as are the same map. */
  lemma ReadsUnique(f: Flash, m: map<Key, Value>, m': map<Key, Value>)
    requires Reads(f, m) && Reads(f, m')
    ensures m == m'
  {
    forall k | k in m ensures k in m' && m'[k] == m[k] {
      var a :| Live(f, a) && At(f, a).key == k;
      assert Bound(m, At(f, a)) && Bound(m', At(f, a));
    }
    forall k | k in m' ensures k in m {
      var a :| Live(f, a) && At(f, a).key == k;
      assert Bound(m, At(f, a));
    }
  }

  lemma ReadsFacts(f: Flash, m: map<Key, Value>, key: Key)
    requires Reads(f, m)
    ensures OneLive(f) && (key in m <==> HasLive(f, key))
    ensures forall a :: Live(f, a) ==> Bound(m, At(f, a))
  {
  }

  /** The addresses of all records. */
  ghost function Addresses(f: Flash): (r: set<Addr>)
    ensures forall a :: a in r <==> In(f, a)
  {
    var r := set s: nat, i: nat | s < |f| && i < |f[s].recs| :: Addr(s, i);
    assert forall a :: In(f, a) ==> a == Addr(a.sec, a.idx);
    r
  }

  ghost function TornSet(f: Flash): (r: set<Addr>)
    ensures forall a :: a in r <==> Torn(f, a)
  {
    set a | a in Addresses(f) && Torn(f, a)
  }

  ghost function LiveKeys(f: Flash): (r: set<Key>)
    ensures forall k :: k in r <==> HasLive(f, k)
  {
    var r := set a | a in Addresses(f) && Live(f, a) :: At(f, a).key;
    r
  }

  ghost function StoredKeys(f: Flash): (r: set<Key>)
    ensures forall k :: k in r <==> Stored(f, k)
  {
    var r := set a | a in Addresses(f) && Kept(f, a) :: At(f, a).key;
    r
  }

  ghost function PendSet(f: Flash): (r: set<Addr>)
    ensures forall a :: a in r <==> Pend(f, a)
  {
    set a | a in Addresses(f) && Pend(f, a)
  }

  /** The keys that `f` stores and `g` does not. */
  ghost function Lost(f: Flash, g: Flash): set<Key> { StoredKeys(f) - StoredKeys(g) }

  /** The map that lookups answer. */
  ghost function View(f: Flash): map<Key, Value> {
    map k | k in LiveKeys(f) :: (var a :| Live(f, a) && At(f, a).key == k; At(f, a).value)
  }

  lemma ViewReads(f: Flash)
    requires OneLive(f)
    ensures Reads(f, View(f))
  {
    forall a | Live(f, a) ensures Bound(View(f), At(f, a)) {
      assert HasLive(f, At(f, a).key);
    }
  }

  /** With nothing pending, every key reads as before or as after, and no key owed is missing. */
  lemma OldOrNew(f: Flash, p: Promise)
    requires Keeps(f, p) && NoPending(f)
    ensures Reads(f, View(f))
    ensures forall k :: k in View(f) ==>
              (k in p.before && View(f)[k] == p.before[k]) || (k in p.after && View(f)[k] == p.after[k])
    ensures forall k :: Owed(p, k) ==> k in View(f)
  {
    ViewReads(f);
    forall k | k in View(f)
      ensures (k in p.before && View(f)[k] == p.before[k]) || (k in p.after && View(f)[k] == p.after[k])
    {
      var a :| Live(f, a) && At(f, a).key == k;
      assert Kept(f, a);
    }
    forall k | Owed(p, k) ensures k in View(f) {
      var a :| Kept(f, a) && At(f, a).key == k;
      assert Live(f, a);
    }
  }

  lemma FewerAddresses(a: set<Addr>, b: set<Addr>)
    requires a <= b
    ensures |a| <= |b| && (a != b ==> |a| < |b|)
  {
    var rest := b - a;
    assert b == a + rest && |b| == |a| + |rest|;
    if a != b {
      assert exists x :: x in rest;
    }
  }
}
