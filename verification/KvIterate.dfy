/**
 The iterator of the key-value database, `fdb_kv_iterate`: a position in the walk that survives between
 calls, and running totals.
 */
module KvIterate {
  import opened FdbDef
  import opened KvDb
  import opened KvDevice
  import opened KvFlash
  import opened Wrappers
  import opened WalkOrder

  function Left(f: Flash, oldest: nat, j: nat, i: nat): nat
    requires oldest < |f|
  {
    if j >= |f| then 0
    else
      var m := |f[SectorAt(oldest, j, |f|)].recs|;
      if i < m then m - i else 0
  }

  /** The live records from record `i` of sector `j` in walk order to the end of the walk. */
  function Remaining(f: Flash, oldest: nat, j: nat, i: nat): seq<Addr>
    requires oldest < |f|
    decreases if j < |f| then |f| - j else 0, Left(f, oldest, j, i)
  {
    if j >= |f| then []
    else
      var s := SectorAt(oldest, j, |f|);
      if i >= |f[s].recs| then Remaining(f, oldest, j + 1, 0)
      else (if f[s].recs[i].status == WRITE then [Addr(s, i)] else []) + Remaining(f, oldest, j, i + 1)
  }

  /** Record `a` comes at or behind position `(j, i)` of the walk. */
  ghost predicate Passed(f: Flash, a: Addr, oldest: nat, j: nat, i: nat)
    requires oldest < |f|
  {
    Live(f, a) && (StepOf(oldest, a.sec, |f|) > j || (StepOf(oldest, a.sec, |f|) == j && a.idx >= i))
  }

  lemma BehindNext(f: Flash, a: Addr, oldest: nat, j: nat, i: nat)
    requires oldest < |f|
    ensures j >= |f| ==> !Passed(f, a, oldest, j, i)
    ensures j < |f| ==>
              var s := SectorAt(oldest, j, |f|);
              && (i >= |f[s].recs| ==> (Passed(f, a, oldest, j, i) <==> Passed(f, a, oldest, j + 1, 0)))
              && (i < |f[s].recs| ==>
                    (Passed(f, a, oldest, j, i) <==> (a == Addr(s, i) && f[s].recs[i].status == WRITE) || Passed(f, a, oldest, j, i + 1)))
              && !Passed(f, Addr(s, i), oldest, j, i + 1)
  {
  }

  lemma {:induction false} RemainingHas(f: Flash, oldest: nat, j: nat, i: nat, a: Addr)
    requires oldest < |f|
    ensures a in Remaining(f, oldest, j, i) <==> Passed(f, a, oldest, j, i)
    decreases if j < |f| then |f| - j else 0, Left(f, oldest, j, i)
  {
    hide Passed;
    BehindNext(f, a, oldest, j, i);
    if j < |f| {
      if i >= |f[SectorAt(oldest, j, |f|)].recs| {
        RemainingHas(f, oldest, j + 1, 0, a);
      } else {
        RemainingHas(f, oldest, j, i + 1, a);
      }
    }
  }

  /** Record `a` comes before record `b` in the walk from the oldest sector on. */
  predicate Precedes(a: Addr, b: Addr, oldest: nat, n: nat)
    requires oldest < n
  {
    && a.sec < n && b.sec < n
    && (StepOf(oldest, a.sec, n) < StepOf(oldest, b.sec, n) || (a.sec == b.sec && a.idx < b.idx))
  }

  /** Listed in walk order, and so none twice. */
  predicate InOrder(s: seq<Addr>, oldest: nat, n: nat)
    requires oldest < n
  {
    forall x, y :: 0 <= x < y < |s| ==> Precedes(s[x], s[y], oldest, n)
  }

  predicate NoRepeat(s: seq<Addr>) { forall x, y :: 0 <= x < y < |s| ==> s[x] != s[y] }

  lemma InOrderCons(a: Addr, s: seq<Addr>, oldest: nat, n: nat)
    requires oldest < n && InOrder(s, oldest, n) && forall b :: b in s ==> Precedes(a, b, oldest, n)
    ensures InOrder([a] + s, oldest, n)
  {
    hide Precedes;
    forall x, y | 0 <= x < y < |[a] + s| ensures Precedes(([a] + s)[x], ([a] + s)[y], oldest, n) {
      if x == 0 {
        assert s[y - 1] in s;
      }
    }
  }

  lemma PassedPrecedes(f: Flash, b: Addr, oldest: nat, j: nat, i: nat)
    requires oldest < |f| && j < |f| && Passed(f, b, oldest, j, i + 1)
    ensures Precedes(Addr(SectorAt(oldest, j, |f|), i), b, oldest, |f|)
  {
  }

  lemma {:induction false} RemainingInOrder(f: Flash, oldest: nat, j: nat, i: nat)
    requires oldest < |f|
    ensures InOrder(Remaining(f, oldest, j, i), oldest, |f|)
    decreases if j < |f| then |f| - j else 0, Left(f, oldest, j, i)
  {
    hide Passed; hide InOrder; hide Precedes; hide Remaining;
    RemainingStep(f, oldest, j, i);
    if j < |f| {
      var s := SectorAt(oldest, j, |f|);
      if i >= |f[s].recs| {
        RemainingInOrder(f, oldest, j + 1, 0);
      } else {
        var rest := Remaining(f, oldest, j, i + 1);
        RemainingInOrder(f, oldest, j, i + 1);
        forall b | b in rest ensures Precedes(Addr(s, i), b, oldest, |f|) {
          RemainingHas(f, oldest, j, i + 1, b);
          PassedPrecedes(f, b, oldest, j, i);
        }
        InOrderCons(Addr(s, i), rest, oldest, |f|);
      }
    } else {
      NoneInOrder(oldest, |f|);
    }
  }

  lemma NoneInOrder(oldest: nat, n: nat)
    requires oldest < n
    ensures InOrder([], oldest, n)
  {
  }

  lemma OrderIsOnce(s: seq<Addr>, oldest: nat, n: nat)
    requires oldest < n && InOrder(s, oldest, n)
    ensures NoRepeat(s)
  {
  }

  /** A whole iteration lists each live record exactly once, in walk order, and nothing else. */
  lemma IterationExact(f: Flash, oldest: nat)
    requires oldest < |f|
    ensures forall a :: a in Remaining(f, oldest, 0, 0) <==> Live(f, a)
    ensures InOrder(Remaining(f, oldest, 0, 0), oldest, |f|) && NoRepeat(Remaining(f, oldest, 0, 0))
  {
    hide InOrder; hide NoRepeat;
    forall a ensures a in Remaining(f, oldest, 0, 0) <==> Live(f, a) {
      RemainingHas(f, oldest, 0, 0, a);
    }
    RemainingInOrder(f, oldest, 0, 0);
    OrderIsOnce(Remaining(f, oldest, 0, 0), oldest, |f|);
  }

  function TotalLen(f: Flash, s: seq<Addr>): nat
    requires forall a :: a in s ==> In(f, a)
  {
    if s == [] then 0 else At(f, s[0]).len + TotalLen(f, s[1..])
  }

  function TotalValue(f: Flash, s: seq<Addr>): nat
    requires forall a :: a in s ==> In(f, a)
  {
    if s == [] then 0 else |At(f, s[0]).value| + TotalValue(f, s[1..])
  }

  class KvIterator {
    var sector: nat           // the sector that is being iterated
    var traversed: nat        // sectors that have been passed
    var curr: Option<nat>     // the record the last call stopped at
    var count: nat
    var objBytes: nat
    var valueBytes: nat

    /** `fdb_kv_iterator_init`. */
    constructor (db: KvDatabase)
      requires db.Base() && db.CacheBase()
      ensures Ready(db) && Todo(db) == Remaining(db.flash, db.oldest, 0, 0)
      ensures count == objBytes == valueBytes == 0
    {
      sector, traversed, curr := db.oldest, 0, None;
      count, objBytes, valueBytes := 0, 0, 0;
    }

    ghost predicate Ready(db: KvDatabase)
      reads this, db, db.kvCache, db.sectorCache
    {
      && db.Base() && db.CacheBase() && traversed < |db.flash|
      && sector == SectorAt(db.oldest, traversed, |db.flash|)
    }

    /** What the iterator has not delivered yet. */
    ghost function Todo(db: KvDatabase): seq<Addr>
      requires Ready(db)
      reads this, db, db.kvCache, db.sectorCache
    {
      Remaining(db.flash, db.oldest, traversed, if curr.Some? then curr.value + 1 else 0)
    }

    /** `fdb_kv_iterate`. */
    method Iterate(db: KvDatabase) returns (more: bool)
      requires Ready(db)
      modifies this, db.sectorCache
      ensures more ==>
                && Ready(db) && curr.Some? && old(Todo(db)) == [Addr(sector, curr.value)] + Todo(db)
                && Live(db.flash, Addr(sector, curr.value))
                && count == old(count) + 1
                && objBytes == old(objBytes) + At(db.flash, Addr(sector, curr.value)).len
                && valueBytes == old(valueBytes) + |At(db.flash, Addr(sector, curr.value)).value|
      ensures db.CacheBase()
      ensures !more ==> old(Todo(db)) == [] && count == old(count) && objBytes == old(objBytes) && valueBytes == old(valueBytes)
    {
      hide *;
      var f, n := db.flash, |db.flash|;
      ghost var oldest := db.oldest;
      ReadyFacts(db);
      ghost var todo := Todo(db);
      var pos: nat := if curr.Some? then curr.value + 1 else 0;
      while traversed < n
        invariant db.flash == f && db.oldest == oldest < n == |f| && db.Base() && db.CacheBase() && traversed <= n
        invariant traversed < n ==> sector == SectorAt(oldest, traversed, n)
        invariant Remaining(f, oldest, traversed, pos) == todo
        invariant count == old(count) && objBytes == old(objBytes) && valueBytes == old(valueBytes)
        decreases n - traversed
      {
        var x := f[sector];
        BaseSector(db, sector);
        var info := db.ReadSector(sector, false);
        if info.Some? && info.value.store in {STORE_USING, STORE_FULL} {
          pos := NextLive(db, sector, traversed, pos);
          if pos < |x.recs| {
            RemainingStep(f, oldest, traversed, pos);
            curr := Some(pos);
            count, objBytes, valueBytes := count + 1, objBytes + x.recs[pos].len, valueBytes + |x.recs[pos].value|;
            NowAt(db, pos);
            return true;
          }
        }
        RemainingStep(f, oldest, traversed, pos);
        curr, pos := None, 0;
        if traversed + 1 < n {
          StepNextSector(oldest, traversed, n);
          sector := if sector + 1 < n then sector + 1 else 0;
        }
        traversed := traversed + 1;
      }
      RemainingStep(f, oldest, traversed, pos);
      more := false;
    }

    /** The walk over the records of a sector to the next live one. */
    method NextLive(db: KvDatabase, s: nat, j: nat, from: nat) returns (pos: nat)
      requires db.Base() && db.oldest < |db.flash| && j < |db.flash| && s == SectorAt(db.oldest, j, |db.flash|)
      ensures Remaining(db.flash, db.oldest, j, pos) == Remaining(db.flash, db.oldest, j, from)
      ensures pos < |db.flash[s].recs| ==> db.flash[s].recs[pos].status == WRITE
    {
      hide *;
      var recs := db.flash[s].recs;
      pos := from;
      while pos < |recs| && !(recs[pos].status == WRITE && recs[pos].crcOk)
        invariant Remaining(db.flash, db.oldest, j, pos) == Remaining(db.flash, db.oldest, j, from)
        decreases |recs| - pos
      {
        BaseRecord(db, s, pos);
        RemainingStep(db.flash, db.oldest, j, pos);
        pos := pos + 1;
      }
    }

    lemma BaseSector(db: KvDatabase, s: nat)
      requires db.Base() && s < |db.flash|
      ensures var x := db.flash[s]; !(x.ok && x.store in {STORE_USING, STORE_FULL}) ==> x.recs == []
    {
      hide NorRun; hide FlashOk;
      SectorOfWalk(db.flash, db.cap, s);
    }

    lemma BaseRecord(db: KvDatabase, s: nat, i: nat)
      requires db.Base() && s < |db.flash| && i < |db.flash[s].recs|
      ensures db.flash[s].recs[i].status == WRITE ==> db.flash[s].recs[i].crcOk
    {
      hide NorRun; hide FlashOk;
      CompleteIfLive(db.flash, db.cap, s, i);
    }

    lemma ReadyFacts(db: KvDatabase)
      requires Ready(db)
      ensures db.Base() && db.CacheBase() && db.oldest < |db.flash| && traversed < |db.flash|
      ensures sector == SectorAt(db.oldest, traversed, |db.flash|) && FlashOk(db.flash, db.cap)
      ensures Todo(db) == Remaining(db.flash, db.oldest, traversed, if curr.Some? then curr.value + 1 else 0)
    {
      hide NorRun; hide FlashOk;
    }

    lemma NowReady(db: KvDatabase)
      requires db.Base() && db.CacheBase() && traversed < |db.flash| && db.oldest < |db.flash|
      requires sector == SectorAt(db.oldest, traversed, |db.flash|)
      ensures Ready(db)
      ensures Todo(db) == Remaining(db.flash, db.oldest, traversed, if curr.Some? then curr.value + 1 else 0)
    {
      hide NorRun; hide FlashOk;
    }

    lemma NowAt(db: KvDatabase, i: nat)
      requires db.Base() && db.CacheBase() && traversed < |db.flash| && db.oldest < |db.flash| && curr == Some(i)
      requires sector == SectorAt(db.oldest, traversed, |db.flash|)
      requires i < |db.flash[sector].recs| && db.flash[sector].recs[i].status == WRITE
      ensures Ready(db) && Todo(db) == Remaining(db.flash, db.oldest, traversed, i + 1)
      ensures Live(db.flash, Addr(sector, i)) && At(db.flash, Addr(sector, i)) == db.flash[sector].recs[i]
    {
      NowReady(db);
    }
  }

  lemma RemainingStep(f: Flash, oldest: nat, j: nat, i: nat)
    requires oldest < |f|
    ensures j >= |f| ==> Remaining(f, oldest, j, i) == []
    ensures j < |f| ==>
              var s := SectorAt(oldest, j, |f|);
              Remaining(f, oldest, j, i) == if i >= |f[s].recs| then Remaining(f, oldest, j + 1, 0)
                                            else (if f[s].recs[i].status == WRITE then [Addr(s, i)] else []) + Remaining(f, oldest, j, i + 1)
    ensures [] + Remaining(f, oldest, j, i + 1) == Remaining(f, oldest, j, i + 1)
  {
  }

  /** Calling `fdb_kv_iterate` until it says that there is nothing more. */
  method Drain(db: KvDatabase) returns (listed: seq<Addr>, count: nat, objBytes: nat, valueBytes: nat)
    requires db.Valid()
    modifies db.sectorCache
    ensures db.Valid() && (forall a :: a in listed <==> Live(db.flash, a))
    ensures InOrder(listed, db.oldest, |db.flash|) && NoRepeat(listed)
    ensures count == |listed| == |db.model|
    ensures forall a :: a in listed ==> Bound(db.model, At(db.flash, a))
    ensures objBytes == TotalLen(db.flash, listed) && valueBytes == TotalValue(db.flash, listed)
  {
    hide *;
    db.ValidHas();
    IterationExact(db.flash, db.oldest);
    ListedIsModel(db.flash, Remaining(db.flash, db.oldest, 0, 0), db.model);
    var itr := new KvIterator(db);
    listed := [];
    var more := true;
    TotalsNone(db.flash);
    while more
      invariant more ==> itr.Ready(db) && listed + itr.Todo(db) == Remaining(db.flash, db.oldest, 0, 0)
      invariant !more ==> listed == Remaining(db.flash, db.oldest, 0, 0)
      invariant db.Base() && db.CacheBase() && itr.count == |listed| && forall a :: a in listed ==> In(db.flash, a)
      invariant itr.objBytes == TotalLen(db.flash, listed) && itr.valueBytes == TotalValue(db.flash, listed)
      decreases |Remaining(db.flash, db.oldest, 0, 0)| - |listed|, more
    {
      ghost var todo := itr.Todo(db);
      more := itr.Iterate(db);
      if more {
        var a := Addr(itr.sector, itr.curr.value);
        TotalsNext(db.flash, listed, a);
        assert listed + todo == listed + [a] + itr.Todo(db);
        listed := listed + [a];
      } else {
        assert listed + todo == listed;
      }
    }
    count, objBytes, valueBytes := itr.count, itr.objBytes, itr.valueBytes;
    db.NowValid();
  }

  lemma TotalsNone(f: Flash)
    ensures TotalLen(f, []) == 0 && TotalValue(f, []) == 0
  {
  }

  lemma {:induction false} TotalsNext(f: Flash, s: seq<Addr>, a: Addr)
    requires (forall b :: b in s ==> In(f, b)) && Live(f, a)
    ensures In(f, a) && forall b :: b in s + [a] ==> In(f, b)
    ensures TotalLen(f, s + [a]) == TotalLen(f, s) + At(f, a).len
    ensures TotalValue(f, s + [a]) == TotalValue(f, s) + |At(f, a).value|
  {
    if s == [] {
      assert [] + [a] == [a] && [a][1..] == [];
    } else {
      TotalsNext(f, s[1..], a);
      assert (s + [a])[1..] == s[1..] + [a];
    }
  }

  lemma {:induction false} UniqueCount(ks: seq<Key>, keys: set<Key>)
    requires (forall x, y :: 0 <= x < y < |ks| ==> ks[x] != ks[y]) && forall k :: k in keys <==> k in ks
    ensures |keys| == |ks|
  {
    if ks == [] {
      assert keys == {};
    } else {
      assert ks == [ks[0]] + ks[1..] && ks[0] in keys;
      UniqueCount(ks[1..], keys - {ks[0]});
    }
  }

  function KeysOf(f: Flash, s: seq<Addr>): (ks: seq<Key>)
    requires forall i :: 0 <= i < |s| ==> In(f, s[i])
    ensures |ks| == |s| && forall i :: 0 <= i < |s| ==> ks[i] == At(f, s[i]).key
  {
    seq(|s|, i requires 0 <= i < |s| => At(f, s[i]).key)
  }

  lemma KeyListed(f: Flash, s: seq<Addr>, m: map<Key, Value>, k: Key)
    requires Reads(f, m) && (forall a :: a in s <==> Live(f, a)) && forall i :: 0 <= i < |s| ==> In(f, s[i])
    ensures k in m.Keys <==> k in KeysOf(f, s)
  {
    var ks := KeysOf(f, s);
    if k in m {
      assert HasLive(f, k);
      var a :| Live(f, a) && At(f, a).key == k;
      assert a in s;
      var i :| 0 <= i < |s| && s[i] == a;
      assert ks[i] == k;
    }
    if k in ks {
      var i :| 0 <= i < |ks| && ks[i] == k;
      assert s[i] in s;
      assert Bound(m, At(f, s[i]));
    }
  }

  lemma KeysOnce(f: Flash, s: seq<Addr>)
    requires OneLive(f) && NoRepeat(s) && forall i :: 0 <= i < |s| ==> Live(f, s[i])
    ensures var ks := KeysOf(f, s); forall x, y :: 0 <= x < y < |ks| ==> ks[x] != ks[y]
  {
  }

  lemma ListedIsModel(f: Flash, s: seq<Addr>, m: map<Key, Value>)
    requires Reads(f, m) && NoRepeat(s) && forall a :: a in s <==> Live(f, a)
    ensures |s| == |m| && forall a :: a in s ==> Bound(m, At(f, a))
  {
    forall i | 0 <= i < |s| ensures Live(f, s[i]) {
      assert s[i] in s;
    }
    KeysOnce(f, s);
    forall k ensures k in m.Keys <==> k in KeysOf(f, s) {
      KeyListed(f, s, m, k);
    }
    hide KeysOf; hide HasLive; hide NoRepeat;
    UniqueCount(KeysOf(f, s), m.Keys);
  }

  lemma StepNextSector(oldest: nat, j: nat, n: nat)
    requires oldest < n && j + 1 < n
    ensures var s := SectorAt(oldest, j, n); SectorAt(oldest, j + 1, n) == if s + 1 < n then s + 1 else 0
  {
  }

  lemma SectorOfWalk(f: Flash, cap: nat, s: nat)
    requires FlashOk(f, cap) && s < |f|
    ensures !(f[s].ok && f[s].store in {STORE_USING, STORE_FULL}) ==> f[s].recs == []
  {
    assert SectorOk(f[s], cap);
  }

  lemma CompleteIfLive(f: Flash, cap: nat, s: nat, i: nat)
    requires FlashOk(f, cap) && s < |f| && i < |f[s].recs|
    ensures f[s].recs[i].status == WRITE ==> f[s].recs[i].crcOk
  {
    assert SectorOk(f[s], cap);
    assert RecOk(f[s].recs[i], i == 0);
  }
}
