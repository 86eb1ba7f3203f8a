/**
 The sectors in ring order, the log sequence they hold, and what a query should return.
 */
module TsRing {
  import opened FdbDef
  import opened TsFlash
  import opened WalkOrder

  function Flat(r: seq<TsSector>): seq<Log> {
    if r == [] then [] else Flat(r[..|r| - 1]) + Logs(r[|r| - 1])
  }

  lemma {:induction false} FlatConcat(r: seq<TsSector>, q: seq<TsSector>)
    ensures Flat(r + q) == Flat(r) + Flat(q)
    decreases |q|
  {
    hide Logs;
    if q == [] {
      assert r + q == r;
    } else {
      assert (r + q)[..|r + q| - 1] == r + q[..|q| - 1];
      FlatConcat(r, q[..|q| - 1]);
    }
  }

  lemma FlatOne(x: TsSector)
    ensures Flat([x]) == Logs(x)
  {
    assert [x][..0] == [];
  }

  lemma FlatUpTo(r: seq<TsSector>, j: nat)
    requires j < |r|
    ensures Flat(r[..j + 1]) == Flat(r[..j]) + Logs(r[j])
  {
    hide Logs;
    assert r[..j + 1][..j] == r[..j];
  }

  lemma FlatFrom(r: seq<TsSector>, j: nat)
    requires j < |r|
    ensures Flat(r[j..]) == Logs(r[j]) + Flat(r[j + 1..])
  {
    hide *;
    FlatOne(r[j]);
    assert r[j..] == [r[j]] + r[j + 1..];
    FlatConcat([r[j]], r[j + 1..]);
  }

  /** Sector `j` of the ring, the log sequence before it, and the one behind it. */
  lemma FlatAt(r: seq<TsSector>, j: nat)
    requires j < |r|
    ensures Flat(r) == Flat(r[..j]) + Logs(r[j]) + Flat(r[j + 1..])
    ensures Flat(r[..j + 1]) == Flat(r[..j]) + Logs(r[j])
    ensures Flat(r[j..]) == Logs(r[j]) + Flat(r[j + 1..])
  {
    hide *;
    FlatUpTo(r, j);
    FlatFrom(r, j);
    assert r == r[..j + 1] + r[j + 1..];
    FlatConcat(r[..j + 1], r[j + 1..]);
  }

  function Ring(sectors: seq<TsSector>, oldest: nat): seq<TsSector>
    requires oldest <= |sectors|
  {
    sectors[oldest..] + sectors[..oldest]
  }

  function Previous(s: nat, n: nat): nat
    requires s < n
  {
    if s > 0 then s - 1 else n - 1
  }

  function Next(s: nat, n: nat): nat { if s + 1 < n then s + 1 else 0 }

  /** The first `used` sectors hold logs, in time order from sector to sector; all but the last of them
      are full, and the rest are empty. */
  ghost predicate RingInv(r: seq<TsSector>, used: nat, secSize: nat) {
    && used <= |r|
    && (forall j :: 0 <= j < |r| ==> SectorInv(r[j], secSize))
    && (forall j :: 0 <= j < |r| ==> (r[j].store == STORE_EMPTY <==> j >= used))
    && (forall j :: 0 <= j < used - 1 ==> r[j].store == STORE_FULL)
    && (forall j, k :: 0 <= j < k < used && r[k].idx != [] ==> LastTime(r[j]) < r[k].idx[0].time)
  }

  function LastTime(x: TsSector): int
  {
    if x.idx == [] then 0 else x.idx[|x.idx| - 1].time
  }

  // ---------------------------------------------------------------- queries

  function Select(s: seq<Log>, lo: int, hi: int): seq<Log> {
    if s == [] then []
    else
      var last := s[|s| - 1];
      Select(s[..|s| - 1], lo, hi) + if lo <= last.time <= hi then [last] else []
  }

  function Rev(s: seq<Log>): seq<Log> {
    if s == [] then [] else [s[|s| - 1]] + Rev(s[..|s| - 1])
  }

  predicate Below(s: seq<Log>, t: int) { forall i :: 0 <= i < |s| ==> s[i].time < t }

  predicate Above(s: seq<Log>, t: int) { forall i :: 0 <= i < |s| ==> s[i].time > t }

  predicate Sorted(s: seq<Log>) { forall i, j :: 0 <= i < j < |s| ==> s[i].time < s[j].time }

  lemma {:induction false} SelectConcat(s: seq<Log>, t: seq<Log>, lo: int, hi: int)
    ensures Select(s + t, lo, hi) == Select(s, lo, hi) + Select(t, lo, hi)
    decreases |t|
  {
    if t == [] {
      assert s + t == s;
    } else {
      assert (s + t)[..|s + t| - 1] == s + t[..|t| - 1];
      SelectConcat(s, t[..|t| - 1], lo, hi);
    }
  }

  lemma {:induction false} SelectNone(s: seq<Log>, lo: int, hi: int)
    requires Below(s, lo) || Above(s, hi)
    ensures Select(s, lo, hi) == []
  {
    if s != [] {
      SelectNone(s[..|s| - 1], lo, hi);
    }
  }

  /** The selection holds exactly the logs in range, each once and in order. */
  lemma {:induction false} SelectExact(s: seq<Log>, lo: int, hi: int)
    requires Sorted(s)
    ensures Sorted(Select(s, lo, hi))
    ensures forall x :: x in Select(s, lo, hi) <==> x in s && lo <= x.time <= hi
  {
    if s != [] {
      var t, last := s[..|s| - 1], s[|s| - 1];
      SelectExact(t, lo, hi);
      assert s == t + [last];
      assert forall x :: x in t ==> x.time < last.time;
    }
  }

  lemma {:induction false} RevConcat(s: seq<Log>, t: seq<Log>)
    ensures Rev(s + t) == Rev(t) + Rev(s)
    decreases |t|
  {
    if t == [] {
      assert s + t == s;
    } else {
      assert (s + t)[..|s + t| - 1] == s + t[..|t| - 1];
      RevConcat(s, t[..|t| - 1]);
    }
  }

  lemma RevOne(x: Log)
    ensures Rev([x]) == [x]
  {
    assert [x][..0] == [];
  }

  // ---------------------------------------------------------------- the ring in time order

  lemma SectorTimes(x: TsSector, secSize: nat)
    requires SectorInv(x, secSize)
    ensures Sorted(Logs(x)) && |Logs(x)| == |x.idx|
    ensures forall i :: 0 <= i < |x.idx| ==> Logs(x)[i].time == x.idx[i].time && x.idx[0].time <= x.idx[i].time <= LastTime(x)
  {
  }

  /** Everything before a sector is older than its first log, everything behind it is newer than its last. */
  lemma {:induction false} RingBefore(r: seq<TsSector>, used: nat, secSize: nat, j: nat, k: nat)
    requires RingInv(r, used, secSize) && k <= j < used
    requires r[j].idx != []
    ensures Below(Flat(r[..k]), r[j].idx[0].time)
    decreases k
  {
    hide Logs;
    hide SectorInv;
    hide Flat;
    if k > 0 {
      RingBefore(r, used, secSize, j, k - 1);
      FlatAt(r, k - 1);
      SectorTimes(r[k - 1], secSize);
      BelowConcat(Flat(r[..k - 1]), Logs(r[k - 1]), r[j].idx[0].time);
    } else {
      FlatNone(r[..0]);
    }
  }

  lemma FlatNone(r: seq<TsSector>)
    requires r == []
    ensures Flat(r) == []
  {
  }

  lemma BelowConcat(s: seq<Log>, u: seq<Log>, t: int)
    requires Below(s, t) && Below(u, t)
    ensures Below(s + u, t)
  {
  }

  lemma AboveConcat(s: seq<Log>, u: seq<Log>, t: int)
    requires Above(s, t) && Above(u, t)
    ensures Above(s + u, t)
  {
  }

  lemma SortedConcat(s: seq<Log>, u: seq<Log>)
    requires Sorted(s) && Sorted(u) && (u != [] ==> Below(s, u[0].time))
    ensures Sorted(s + u)
  {
  }

  lemma {:induction false} RingBehind(r: seq<TsSector>, used: nat, secSize: nat, j: nat, k: nat)
    requires RingInv(r, used, secSize) && j < used && j < k <= |r|
    ensures Above(Flat(r[k..]), LastTime(r[j]))
    decreases |r| - k
  {
    hide Logs;
    hide SectorInv;
    hide Flat;
    if k < |r| {
      RingBehind(r, used, secSize, j, k + 1);
      FlatAt(r, k);
      SectorTimes(r[k], secSize);
      UsedSector(r, used, secSize, k);
      AboveConcat(Logs(r[k]), Flat(r[k + 1..]), LastTime(r[j]));
    } else {
      FlatNone(r[k..]);
    }
  }

  lemma UsedSector(r: seq<TsSector>, used: nat, secSize: nat, k: nat)
    requires RingInv(r, used, secSize) && k < |r|
    ensures SectorInv(r[k], secSize)
    ensures r[k].idx == [] <==> k >= used
    ensures if k < used then r[k].store == STORE_USING || r[k].store == STORE_FULL else r[k].store == STORE_EMPTY
  {
  }

  lemma {:induction false} RingSorted(r: seq<TsSector>, used: nat, secSize: nat, k: nat)
    requires RingInv(r, used, secSize) && k <= |r|
    ensures Sorted(Flat(r[..k]))
    decreases k
  {
    hide Logs;
    hide SectorInv;
    hide Flat;
    if k > 0 {
      RingSorted(r, used, secSize, k - 1);
      FlatAt(r, k - 1);
      UsedSector(r, used, secSize, k - 1);
      SectorTimes(r[k - 1], secSize);
      if k <= used {
        RingBefore(r, used, secSize, k - 1, k - 1);
      }
      SortedConcat(Flat(r[..k - 1]), Logs(r[k - 1]));
    } else {
      FlatNone(r[..0]);
    }
  }

  /** The log sequence of the ring, oldest first, is strictly increasing in time. */
  lemma AllSorted(r: seq<TsSector>, used: nat, secSize: nat)
    requires RingInv(r, used, secSize)
    ensures Sorted(Flat(r))
  {
    RingSorted(r, used, secSize, |r|);
    assert r[..|r|] == r;
  }

  /** The oldest sector of a full ring holds logs, but not all of them. */
  lemma OldestHolds(r: seq<TsSector>, secSize: nat)
    requires RingInv(r, |r|, secSize) && |r| >= 2
    ensures 0 < |Logs(r[0])| < |Flat(r)| && Sorted(Flat(r))
  {
    UsedSector(r, |r|, secSize, 0);
    UsedSector(r, |r|, secSize, 1);
    AllSorted(r, |r|, secSize);
    hide RingInv; hide SectorInv; hide Flat; hide Sorted;
    FlatAt(r, 0);
    FlatAt(r[1..], 0);
    FlatNone(r[..0]);
    assert r[1..][0] == r[1];
  }

  /** A sequence that has lost its front does not continue the old one. */
  lemma FrontShows(s: seq<Log>, k: nat, x: Log)
    requires Sorted(s) && k < |s|
    ensures s <= s[k..] + [x] <==> k == 0
  {
    if k == 0 {
      assert s[0..] == s;
    } else {
      assert (s[k..] + [x])[0] == s[k];
    }
  }

  lemma EmptyRest(r: seq<TsSector>, used: nat, secSize: nat, k: nat)
    requires RingInv(r, used, secSize) && used <= k <= |r|
    ensures Flat(r[k..]) == [] && Flat(r) == Flat(r[..k])
    decreases |r| - k
  {
    if k < |r| {
      UsedSector(r, used, secSize, k);
      NoLogs(r[k]);
      hide RingInv; hide Flat; hide Logs; hide SectorInv;
      EmptyRest(r, used, secSize, k + 1);
      FlatAt(r, k);
    } else {
      assert r[k..] == [] && r[..k] == r;
    }
  }

  // ---------------------------------------------------------------- what an append does to the ring

  lemma RingIndex(sectors: seq<TsSector>, oldest: nat, j: nat)
    requires oldest < |sectors| && j < |sectors|
    ensures Ring(sectors, oldest)[j] == sectors[SectorAt(oldest, j, |sectors|)]
  {
  }

  lemma RingLength(sectors: seq<TsSector>, oldest: nat, used: nat, secSize: nat)
    requires oldest < |sectors| && RingInv(Ring(sectors, oldest), used, secSize)
    ensures |Ring(sectors, oldest)| == |sectors| && used <= |sectors|
  {
  }

  lemma FirstSlot(oldest: nat, n: nat)
    requires oldest < n
    ensures SectorAt(oldest, 0, n) == oldest
  {
  }

  lemma NextSlot(oldest: nat, j: nat, n: nat)
    requires oldest < n && j < n
    ensures j + 1 < n ==> SectorAt(oldest, j + 1, n) == Next(SectorAt(oldest, j, n), n)
    ensures Next(SectorAt(oldest, j, n), n) < n
  {
  }

  lemma RingUpdate(sectors: seq<TsSector>, oldest: nat, j: nat, y: TsSector)
    requires oldest < |sectors| && j < |sectors|
    ensures Ring(sectors[SectorAt(oldest, j, |sectors|) := y], oldest) == Ring(sectors, oldest)[j := y]
  {
  }

  lemma RingRotate(sectors: seq<TsSector>, oldest: nat)
    requires oldest < |sectors|
    ensures Ring(sectors, Next(oldest, |sectors|)) == Ring(sectors, oldest)[1..] + [Ring(sectors, oldest)[0]]
  {
    if oldest + 1 < |sectors| {
      assert sectors[oldest..] == [sectors[oldest]] + sectors[oldest + 1..];
      assert sectors[..oldest + 1] == sectors[..oldest] + [sectors[oldest]];
    } else {
      assert sectors[oldest..] == [sectors[oldest]];
      assert Ring(sectors, 0) == sectors;
      assert sectors == sectors[..oldest] + [sectors[oldest]];
    }
  }

  lemma NoLogs(x: TsSector)
    requires x.idx == []
    ensures Logs(x) == []
  {
  }

  /** Replacing one sector of the ring changes the log sequence only there. */
  lemma FlatUpdate(r: seq<TsSector>, k: nat, y: TsSector)
    requires k < |r|
    ensures Flat(r[k := y]) == Flat(r[..k]) + Logs(y) + Flat(r[k + 1..])
  {
    var q := r[k := y];
    FlatAt(q, k);
    assert q[..k] == r[..k] && q[k + 1..] == r[k + 1..];
  }

  function Filled(x: TsSector): TsSector
    requires x.idx != []
  {
    x.(store := STORE_FULL, end0 := End(LastTime(x), IdxOff(|x.idx| - 1)))
  }

  lemma FilledOk(x: TsSector, secSize: nat)
    requires SectorInv(x, secSize) && x.store == STORE_USING
    ensures x.idx != [] && SectorInv(Filled(x), secSize) && Logs(Filled(x)) == Logs(x)
  {
    assert Logs(Filled(x)) == Logs(x);
  }

  /** The current sector is closed. */
  lemma RingFill(r: seq<TsSector>, used: nat, secSize: nat)
    requires RingInv(r, used, secSize) && used > 0 && r[used - 1].store == STORE_USING
    ensures r[used - 1].idx != []
    ensures RingInv(r[used - 1 := Filled(r[used - 1])], used, secSize)
    ensures Flat(r[used - 1 := Filled(r[used - 1])]) == Flat(r)
  {
    hide Logs;
    hide Flat;
    hide SectorInv;
    var x := r[used - 1];
    FilledOk(x, secSize);
    FlatUpdate(r, used - 1, Filled(x));
    FlatAt(r, used - 1);
  }

  /** The oldest sector is given up. */
  lemma RingDrop(r: seq<TsSector>, used: nat, secSize: nat)
    requires RingInv(r, used, secSize) && used == |r| && |r| >= 2 && r[used - 1].store == STORE_FULL && TS_HDR <= secSize
    ensures RingInv(r[1..] + [Blank(secSize)], used - 1, secSize)
    ensures |Logs(r[0])| <= |Flat(r)| && Flat(r[1..] + [Blank(secSize)]) == Flat(r)[|Logs(r[0])|..]
  {
    hide Logs;
    hide Flat;
    BlankOk(secSize);
    FlatAt(r, 0);
    FlatNone(r[..0]);
    assert r[0 + 1..] == r[1..];
    FlatConcat(r[1..], [Blank(secSize)]);
    FlatOne(Blank(secSize));
    assert Flat(r) == Logs(r[0]) + Flat(r[1..]);
    var q := r[1..] + [Blank(secSize)];
    forall j | 0 <= j < |q| ensures SectorInv(q[j], secSize) && (q[j].store == STORE_EMPTY <==> j >= used - 1) {
      if j < used - 1 {
        assert q[j] == r[j + 1];
      }
    }
    assert forall j :: 0 <= j < used - 1 ==> q[j] == r[j + 1];
  }

  /** A log goes into the first empty sector. */
  lemma RingOpen(r: seq<TsSector>, used: nat, secSize: nat, y: TsSector, log: Log)
    requires RingInv(r, used, secSize) && used < |r|
    requires used > 0 ==> r[used - 1].store == STORE_FULL && LastTime(r[used - 1]) < log.time
    requires SectorInv(y, secSize) && y.store == STORE_USING && Logs(y) == [log]
    ensures RingInv(r[used := y], used + 1, secSize)
    ensures Flat(r[used := y]) == Flat(r) + [log]
  {
    hide Logs;
    hide Flat;
    hide SectorInv;
    var q := r[used := y];
    FlatUpdate(r, used, y);
    EmptyRest(r, used, secSize, used + 1);
    EmptyRest(r, used, secSize, used);
    SectorTimes(y, secSize);
    assert Flat(r[..used]) + [log] + [] == Flat(r[..used]) + [log];
    forall j, k | 0 <= j < k < used + 1 && q[k].idx != [] ensures LastTime(q[j]) < q[k].idx[0].time {
      if k == used && j < used - 1 {
        UsedSector(r, used, secSize, used - 1);
        SectorTimes(r[used - 1], secSize);
      }
    }
  }

  /** A log goes into the current sector. */
  lemma RingExtend(r: seq<TsSector>, used: nat, secSize: nat, y: TsSector, log: Log)
    requires RingInv(r, used, secSize) && used > 0
    requires SectorInv(y, secSize) && y.store == STORE_USING && Logs(y) == Logs(r[used - 1]) + [log]
    requires r[used - 1].idx != [] ==> y.idx != [] && y.idx[0] == r[used - 1].idx[0]
    ensures RingInv(r[used - 1 := y], used, secSize)
    ensures Flat(r[used - 1 := y]) == Flat(r) + [log]
  {
    hide Logs;
    hide Flat;
    hide SectorInv;
    var q, k := r[used - 1 := y], used - 1;
    FlatUpdate(r, k, y);
    FlatAt(r, k);
    EmptyRest(r, used, secSize, used);
    UsedSector(r, used, secSize, k);
    assert Flat(r[..k]) + (Logs(r[k]) + [log]) + [] == Flat(r[..k]) + Logs(r[k]) + [] + [log];
  }
}
