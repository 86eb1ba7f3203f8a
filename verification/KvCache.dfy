/**
 The key cache: a table from 16 bits of the name's CRC to the address of the record, aged like LRU.
 */
module KvCache {
  import opened Wrappers
  import opened FdbDef
  import opened KvFlash
  import opened Crc

  /** `addr == None` stands for the unused address 0xFFFFFFFF. */
  datatype CacheNode = CacheNode(nameCrc: Word32, active: nat, addr: Option<Addr>)

  type Table = seq<CacheNode>

  function NameCrc(name: Key): Word32 { Word32(Crc32(ZERO, name).bits >> 16) }

  /** `strncmp` over the length of the query, against the bytes programmed from the name on. */
  predicate NameMatches(r: Rec, query: Key) { query <= r.key + r.value }

  predicate FirstWith(c: Table, t: nat, crc: Word32) {
    t < |c| && c[t].nameCrc == crc && forall j :: 0 <= j < t ==> c[j].nameCrc != crc
  }

  function Decayed(active: nat): nat { if active > 0 then active - 1 else 0 }

  /** An entry that the loop passes over ages. */
  function PassedOver(n: CacheNode): CacheNode {
    if n.addr.Some? then n.(active := Decayed(n.active)) else n
  }

  /** The slot for a new name: the first free one, or if there is none, the first of the least active ones. */
  ghost predicate SlotFor(c: Table, t: nat) {
    && t < |c|
    && (c[t].addr.None? ==> forall j :: 0 <= j < t ==> c[j].addr.Some?)
    && (c[t].addr.Some? ==>
          && (forall j :: 0 <= j < |c| ==> c[j].addr.Some? && Decayed(c[t].active) <= Decayed(c[j].active))
          && forall j :: 0 <= j < t ==> Decayed(c[t].active) < Decayed(c[j].active))
  }

  /** Slot `t` now maps `crc` to `a`; no other slot changed its mapping.  The slot that has the name keeps its activity,
      and the entries before it age; a new name gets the greatest activity, and all other entries age. */
  ghost predicate Mapped(c: Table, c': Table, crc: Word32, a: Addr, t: nat) {
    && |c'| == |c| && FirstWith(c', t, crc)
    && if c[t].nameCrc == crc then
         && c'[t] == c[t].(addr := Some(a))
         && forall j :: 0 <= j < |c| && j != t ==> c'[j] == if j < t then PassedOver(c[j]) else c[j]
       else
         && c'[t] == CacheNode(crc, |c|, Some(a)) && SlotFor(c, t)
         && (forall j :: 0 <= j < |c| ==> c[j].nameCrc != crc)
         && forall j :: 0 <= j < |c| && j != t ==> c'[j] == PassedOver(c[j])
  }

  ghost predicate Removed(c: Table, c': Table, crc: Word32) {
    && |c'| == |c|
    && forall j :: 0 <= j < |c| ==> c'[j] == if FirstWith(c, j, crc) then c[j].(active := 0, addr := None) else c[j]
  }

  predicate Aged(c: Table) { forall j :: 0 <= j < |c| ==> c[j].active <= 0xFFFF }

  /** The mapping, without the activity counts. */
  predicate SameMapping(c: Table, c': Table) {
    |c| == |c'| && forall j :: 0 <= j < |c| ==> c'[j].nameCrc == c[j].nameCrc && c'[j].addr == c[j].addr
  }

  /** The loop has sifted the first `i` entries: `e` is the first free one, `m` the first of the least active
      ones; the number of entries stands for none. */
  ghost predicate Sifted(c: Table, c': Table, crc: Word32, i: nat, e: nat, m: nat, least: nat) {
    && |c'| == |c| && i <= |c| && e <= |c| && m <= |c|
    && (forall j :: 0 <= j < i ==> c[j].nameCrc != crc && c'[j] == PassedOver(c[j]))
    && (forall j :: i <= j < |c| ==> c'[j] == c[j])
    && (e < |c| ==> e < i && c[e].addr.None?) && (forall j :: 0 <= j < i && j < e ==> c[j].addr.Some?)
    && (m == |c| ==> least == 0xFFFF && forall j :: 0 <= j < i ==> c[j].addr.None?)
    && (m < |c| ==>
          && m < i && c[m].addr.Some? && Decayed(c[m].active) == least < 0xFFFF
          && (forall j :: 0 <= j < i && c[j].addr.Some? ==> least <= Decayed(c[j].active))
          && forall j :: 0 <= j < m && c[j].addr.Some? ==> least < Decayed(c[j].active))
  }

  lemma SiftNext(c: Table, c': Table, c'': Table, crc: Word32, i: nat, e: nat, m: nat, least: nat)
    requires Sifted(c, c', crc, i, e, m, least) && i < |c| && c[i].nameCrc != crc && c[i].active <= 0xFFFF
    requires c'' == c'[i := PassedOver(c[i])]
    ensures var e', d := if c[i].addr.None? && e == |c| then i else e, Decayed(c[i].active);
            if c[i].addr.Some? && d < least then Sifted(c, c'', crc, i + 1, e', i, d)
            else Sifted(c, c'', crc, i + 1, e', m, least)
  {
  }

  lemma SiftHit(c: Table, c': Table, c'': Table, crc: Word32, a: Addr, i: nat, e: nat, m: nat, least: nat)
    requires Sifted(c, c', crc, i, e, m, least) && i < |c| && c[i].nameCrc == crc && c'' == c'[i := c[i].(addr := Some(a))]
    ensures Mapped(c, c'', crc, a, i)
  {
  }

  lemma SiftEnd(c: Table, c': Table, c'': Table, crc: Word32, a: Addr, e: nat, m: nat, least: nat)
    requires Sifted(c, c', crc, |c|, e, m, least) && c != []
    requires e < |c| || m < |c| ==> c'' == c'[if e < |c| then e else m := CacheNode(crc, |c|, Some(a))]
    ensures e < |c| || m < |c|
    ensures Mapped(c, c'', crc, a, if e < |c| then e else m)
  {
    assert c[0].addr.Some? || c[0].addr.None?;
  }

  lemma AgedStill(c: Table, c': Table, i: nat, n: CacheNode)
    requires Aged(c) && i < |c| && n.active <= 0xFFFF && c' == c[i := n]
    ensures Aged(c')
  {
  }

  method UpdateKvCache(table: array<CacheNode>, crc: Word32, addr: Option<Addr>)
    requires Aged(table[..]) && table.Length <= 0xFFFF
    modifies table
    ensures Aged(table[..])
    ensures addr.Some? && table.Length > 0 ==> exists t: nat :: Mapped(old(table[..]), table[..], crc, addr.value, t)
    ensures addr.None? ==> Removed(old(table[..]), table[..], crc)
  {
    hide Sifted; hide Mapped; hide Aged;
    var size := table.Length;
    var emptyIndex: nat, minIndex: nat, minActivity: nat := size, size, 0xFFFF;
    ghost var c := table[..];
    SiftStart(c, crc);
    for i := 0 to size
      invariant Aged(table[..]) && emptyIndex <= size && minIndex <= size
      invariant addr.None? ==> table[..] == c && forall j :: 0 <= j < i ==> c[j].nameCrc != crc
      invariant addr.Some? ==> Sifted(c, table[..], crc, i, emptyIndex, minIndex, minActivity)
    {
      ghost var before, e, m, least := table[..], emptyIndex, minIndex, minActivity;
      NodeAged(before, i);
      if addr.Some? {
        SiftAhead(c, before, crc, i, e, m, least);
        if table[i].nameCrc == crc {
          table[i] := table[i].(addr := addr);
          AgedStill(before, table[..], i, table[i]);
          SiftHit(c, before, table[..], crc, addr.value, i, e, m, least);
          return;
        } else if table[i].addr.None? && emptyIndex == size {
          emptyIndex := i;
        } else if table[i].addr.Some? {
          if table[i].active > 0 {
            table[i] := table[i].(active := table[i].active - 1);
          }
          if table[i].active < minActivity {
            minIndex, minActivity := i, table[i].active;
          }
        }
        assert table[..] == before[i := PassedOver(c[i])];
        AgedStill(before, table[..], i, table[i]);
        SiftNext(c, before, table[..], crc, i, e, m, least);
      } else if table[i].nameCrc == crc {
        assert FirstWith(c, i, crc);
        assert forall j :: 0 <= j < size && j != i ==> !FirstWith(c, j, crc);
        table[i] := table[i].(active := 0, addr := None);
        AgedStill(before, table[..], i, table[i]);
        return;
      }
    }
    if addr.Some? {
      ghost var before := table[..];
      if emptyIndex < size {
        table[emptyIndex] := CacheNode(crc, size, addr);
        AgedStill(before, table[..], emptyIndex, table[emptyIndex]);
      } else if minIndex < size {
        table[minIndex] := CacheNode(crc, size, addr);
        AgedStill(before, table[..], minIndex, table[minIndex]);
      }
      if size > 0 {
        SiftEnd(c, before, table[..], crc, addr.value, emptyIndex, minIndex, minActivity);
      }
    }
  }

  lemma SiftStart(c: Table, crc: Word32)
    ensures Sifted(c, c, crc, 0, |c|, |c|, 0xFFFF)
  {
  }

  lemma NodeAged(c: Table, i: nat)
    requires Aged(c) && i < |c|
    ensures c[i].active <= 0xFFFF
  {
  }

  lemma SiftAhead(c: Table, c': Table, crc: Word32, i: nat, e: nat, m: nat, least: nat)
    requires Sifted(c, c', crc, i, e, m, least) && i < |c|
    ensures |c'| == |c| && c'[i] == c[i]
  {
  }

  /** Active slots are the first with their CRC, and lead to the live record of a name with it.
      Slots whose CRC is in `stale` may lead elsewhere: their record is being replaced. */
  ghost predicate CacheOk(f: Flash, c: Table, stale: set<Word32>) {
    forall i :: 0 <= i < |c| && c[i].addr.Some? ==>
      && (forall j :: 0 <= j < i ==> c[j].nameCrc != c[i].nameCrc)
      && (c[i].nameCrc !in stale ==> Live(f, c[i].addr.value) && NameCrc(At(f, c[i].addr.value).key) == c[i].nameCrc)
  }

  /** A lookup of the name goes to slot `t`: the first one with its CRC whose record begins with it. */
  ghost predicate HitAt(f: Flash, c: Table, name: Key, t: nat) {
    t < |c| && Answers(f, c[t], name) && forall j :: 0 <= j < t ==> !Answers(f, c[j], name)
  }

  predicate Answers(f: Flash, n: CacheNode, name: Key) {
    n.addr.Some? && n.nameCrc == NameCrc(name) && In(f, n.addr.value) && NameMatches(At(f, n.addr.value), name)
  }

  /** A hit makes an entry more active, up to a limit. */
  function Raised(n: CacheNode, size: nat): CacheNode {
    n.(active := if n.active + size >= 0xFFFF then 0xFFFF else n.active + size)
  }

  method GetKvFromCache(table: array<CacheNode>, f: Flash, name: Key) returns (r: Option<Addr>)
    requires CacheOk(f, table[..], {}) && Aged(table[..]) && table.Length <= 0xFFFF
    modifies table
    ensures SameMapping(old(table[..]), table[..]) && Aged(table[..])
    ensures r.None? ==> table[..] == old(table[..])
    ensures r.Some? ==> exists t: nat :: HitAt(f, old(table[..]), name, t) && old(table[t]).addr == r
                                         && table[..] == old(table[..])[t := Raised(old(table[t]), table.Length)]
    ensures r.Some? ==> Live(f, r.value) && NameCrc(At(f, r.value).key) == NameCrc(name) && NameMatches(At(f, r.value), name)
    ensures r.None? ==> forall i :: 0 <= i < table.Length && table[i].addr.Some? && table[i].nameCrc == NameCrc(name) ==>
                          !NameMatches(At(f, table[i].addr.value), name)
  {
    hide NameCrc;
    var nameCrc := NameCrc(name);
    for i := 0 to table.Length
      invariant table[..] == old(table[..])
      invariant forall j :: 0 <= j < i && table[j].addr.Some? && table[j].nameCrc == nameCrc ==>
                  !NameMatches(At(f, table[j].addr.value), name)
    {
      assert table[..][i] == table[i];
      if table[i].addr.Some? && table[i].nameCrc == nameCrc {
        if NameMatches(At(f, table[i].addr.value), name) {
          r := table[i].addr;
          assert HitAt(f, old(table[..]), name, i);
          table[i] := table[i].(active := if table[i].active >= 0xFFFF - table.Length then 0xFFFF
                                          else table[i].active + table.Length);
          return;
        }
      }
    }
    r := None;
  }

  /** A lookup through the table: a hit raises its entry, and what only the scan finds gets an entry. */
  ghost predicate LookedUp(f: Flash, c: Table, c': Table, name: Key, r: Option<Addr>) {
    && (forall t: nat :: HitAt(f, c, name, t) ==> c[t].addr == r && c' == c[t := Raised(c[t], |c|)])
    && ((forall t: nat :: !HitAt(f, c, name, t)) ==>
          if r.None? then c' == c else exists t: nat :: Mapped(c, c', NameCrc(name), r.value, t))
  }

  /** No name in use is the beginning of another one with the same 16-bit CRC, and none fills the name buffer. */
  ghost predicate GoodNames(names: set<Key>) {
    && (forall k, l :: k in names && l in names && NameCrc(k) == NameCrc(l) && k <= l ==> k == l)
    && (forall k :: k in names ==> |k| != NAME_MAX)
  }

  /** Whatever records the names in use have, a table in step with them never answers with the record of another name. */
  ghost predicate AnswersRight(names: set<Key>) {
    forall f: Flash, c: Table, k: Key, t: nat ::
      CacheOk(f, c, {}) && k in names && (forall a :: Live(f, a) ==> At(f, a).key in names) && HitAt(f, c, k, t) ==>
        At(f, c[t].addr.value).key == k
  }

  /** That is so exactly if no name is the beginning of another one with the same 16-bit CRC: a name is compared over
      its own length only. */
  lemma GoodNamesExact(names: set<Key>)
    requires forall k :: k in names ==> |k| != NAME_MAX
    ensures GoodNames(names) <==> AnswersRight(names)
  {
    hide NameCrc;
    if !GoodNames(names) {
      var k, l :| k in names && l in names && NameCrc(k) == NameCrc(l) && k <= l && k != l;
      var f := [Sector(true, STORE_USING, DIRTY_FALSE, [NewRec(l, [])])];
      var c := [CacheNode(NameCrc(l), 0, Some(Addr(0, 0)))];
      assert At(f, Addr(0, 0)) == NewRec(l, []);
      assert forall a :: Live(f, a) ==> a == Addr(0, 0);
      assert CacheOk(f, c, {});
      assert k <= l + [];
      assert HitAt(f, c, k, 0);
    }
  }

  /** `co` and `co19`: such names exist. */
  const SHORT_NAME: Key := [0x63, 0x6F]
  const LONG_NAME: Key := [0x63, 0x6F, 0x31, 0x39]

  lemma ConfusedNames()
    ensures !GoodNames({SHORT_NAME, LONG_NAME})
  {
    TwoSums();
    hide Crc32;
    assert SHORT_NAME <= LONG_NAME && SHORT_NAME != LONG_NAME && NameCrc(SHORT_NAME) == NameCrc(LONG_NAME);
  }

  // ---------------------------------------------------------------- keeping the cache in step

  /** Live records whose CRC is not stale stay where they are. */
  lemma CacheFollows(f: Flash, g: Flash, c: Table, stale: set<Word32>)
    requires CacheOk(f, c, stale)
    requires forall a :: Live(f, a) && NameCrc(At(f, a).key) !in stale ==> Live(g, a) && At(g, a).key == At(f, a).key
    ensures CacheOk(g, c, stale)
  {
    hide NameCrc;
  }

  lemma CacheWeaker(f: Flash, c: Table, stale: set<Word32>)
    requires CacheOk(f, c, {})
    ensures CacheOk(f, c, stale)
  {
    hide NameCrc;
  }

  lemma CacheMapped(f: Flash, c: Table, c': Table, stale: set<Word32>, crc: Word32, a: Addr, t: nat)
    requires CacheOk(f, c, stale) && Mapped(c, c', crc, a, t)
    ensures CacheOk(f, c', stale + {crc})
    ensures Live(f, a) && NameCrc(At(f, a).key) == crc ==> CacheOk(f, c', stale - {crc})
    ensures forall i :: 0 <= i < |c'| && c'[i].addr.Some? && c'[i].nameCrc == crc ==> c'[i].addr == Some(a)
  {
    hide NameCrc;
    forall i | 0 <= i < |c'| && c'[i].addr.Some? && i != t ensures c'[i].nameCrc != crc && c[i].addr == c'[i].addr {
    }
  }

  lemma CacheRemoved(f: Flash, c: Table, c': Table, stale: set<Word32>, crc: Word32)
    requires CacheOk(f, c, stale) && Removed(c, c', crc)
    ensures CacheOk(f, c', stale - {crc})
  {
    hide NameCrc;
    assert forall i: nat :: i < |c| && c[i].addr.Some? && c[i].nameCrc == crc ==> FirstWith(c, i, crc);
  }

  lemma CacheFollowsIdle(f: Flash, a: Addr, c: Table)
    requires CacheOk(f, c, {}) && In(f, a) && !Live(f, a)
    ensures CacheOk(WithStatus(f, a, ERR_HDR), c, {})
  {
    hide NameCrc;
    Rewritten(f, a, At(f, a).(status := ERR_HDR));
    CacheFollows(f, WithStatus(f, a, ERR_HDR), c, {});
  }

  predicate Cleared(c: Table) { forall i :: 0 <= i < |c| ==> c[i].addr.None? }

  lemma ClearedIsOk(f: Flash, c: Table)
    requires Cleared(c)
    ensures CacheOk(f, c, {})
  {
  }
}
