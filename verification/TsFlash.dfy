/**
 The flash content of a time-series database: a ring of sectors.  Inside a sector the indexes grow up
 behind the header and the log data grows down from the end.  Addresses are offsets in the sector.
 */
module TsFlash {
  import opened FdbDef

  // sizes of the C structs with a write granularity of one bit
  const TS_HDR: nat := 40
  const IDX: nat := 16
  const UNWRITTEN: nat := 0xFFFF_FFFF

  datatype Idx = Idx(status: TslStatus, time: int, len: nat, addr: nat)

  /** The end node saved in the sector header when the sector gets full. */
  datatype EndInfo = NoEnd | End(time: int, idx: nat)

  datatype TsSector = TsSector(store: Store, startTime: int, end0: EndInfo, end1: EndInfo, idx: seq<Idx>, data: seq<bv8>)

  datatype Log = Log(status: TslStatus, time: int, payload: seq<bv8>)

  function IdxOff(i: nat): nat { TS_HDR + i * IDX }

  /** Where the data of the first `i` logs ends, counted down from the end of the sector. */
  function Bottom(idx: seq<Idx>, secSize: nat, i: nat): int
    requires i <= |idx|
  {
    if i == 0 then secSize else Bottom(idx, secSize, i - 1) - idx[i - 1].len
  }

  /** One more index slot and so many bytes of data fit between the indexes and the data of the sector. */
  predicate HasRoom(x: TsSector, secSize: nat, len: nat) {
    IdxOff(|x.idx| + 1) + len <= Bottom(x.idx, secSize, |x.idx|)
  }

  function LogAt(x: TsSector, i: nat): Log
    requires i < |x.idx|
  {
    var e := x.idx[i];
    Log(e.status, e.time, if e.addr + e.len <= |x.data| then x.data[e.addr..e.addr + e.len] else [])
  }

  function Logs(x: TsSector): seq<Log> { seq(|x.idx|, i requires 0 <= i < |x.idx| => LogAt(x, i)) }

  function Blank(secSize: nat): TsSector {
    TsSector(STORE_EMPTY, -1, NoEnd, NoEnd, [], seq(secSize, _ => ERASED_BYTE))
  }

  predicate Increasing(idx: seq<Idx>) { forall i, j :: 0 <= i < j < |idx| ==> idx[i].time < idx[j].time }

  ghost predicate SectorInv(x: TsSector, secSize: nat) {
    && |x.data| == secSize
    // the index area and the data area do not meet, and between them the sector is erased
    && IdxOff(|x.idx|) <= Bottom(x.idx, secSize, |x.idx|) <= secSize
    && (forall i :: 0 <= i < |x.idx| ==> x.idx[i].addr == Bottom(x.idx, secSize, i + 1))
    && (forall o :: IdxOff(|x.idx|) <= o < Bottom(x.idx, secSize, |x.idx|) ==> x.data[o] == ERASED_BYTE)
    && (forall i :: 0 <= i < |x.idx| ==> x.idx[i].status !in {TSL_UNUSED, TSL_PRE_WRITE} && x.idx[i].time > 0)
    && Increasing(x.idx)
    && x.store in {STORE_EMPTY, STORE_USING, STORE_FULL}
    && (x.store == STORE_EMPTY <==> x.idx == [])
    && (x.idx != [] ==> x.startTime == x.idx[0].time)
    && x.end0 == if x.store == STORE_FULL && x.idx != [] then End(x.idx[|x.idx| - 1].time, IdxOff(|x.idx| - 1)) else NoEnd
  }

  lemma BlankOk(secSize: nat)
    requires TS_HDR <= secSize
    ensures SectorInv(Blank(secSize), secSize) && Logs(Blank(secSize)) == []
  {
  }

  lemma {:induction false} BottomMonotone(idx: seq<Idx>, secSize: nat, i: nat, j: nat)
    requires i <= j <= |idx|
    ensures Bottom(idx, secSize, j) <= Bottom(idx, secSize, i) <= secSize
    decreases j
  {
    if i < j {
      BottomMonotone(idx, secSize, i, j - 1);
    } else if i > 0 {
      BottomMonotone(idx, secSize, i - 1, j - 1);
    }
  }

  lemma {:induction false} BottomPrefix(idx: seq<Idx>, more: seq<Idx>, secSize: nat, i: nat)
    requires i <= |idx|
    ensures Bottom(idx + more, secSize, i) == Bottom(idx, secSize, i)
  {
    if i > 0 {
      BottomPrefix(idx, more, secSize, i - 1);
      assert (idx + more)[i - 1] == idx[i - 1];
    }
  }

  /** The data of the logs lies in disjoint ranges, above the index area. */
  lemma LayoutDisjoint(x: TsSector, secSize: nat, i: nat, j: nat)
    requires SectorInv(x, secSize) && i < j < |x.idx|
    ensures x.idx[j].addr + x.idx[j].len <= x.idx[i].addr
    ensures IdxOff(|x.idx|) <= x.idx[j].addr && x.idx[i].addr + x.idx[i].len <= secSize
  {
    BottomMonotone(x.idx, secSize, i + 1, j);
    BottomMonotone(x.idx, secSize, j + 1, |x.idx|);
    BottomMonotone(x.idx, secSize, 0, i);
  }

  function WithLog(x: TsSector, time: int, payload: seq<bv8>, addr: nat): TsSector
    requires addr + |payload| <= |x.data|
  {
    x.(idx := x.idx + [Idx(TSL_WRITE, time, |payload|, addr)],
       data := x.data[..addr] + payload + x.data[addr + |payload|..])
  }

  lemma AppendedBottom(x: TsSector, secSize: nat, e: Idx, i: nat)
    requires i <= |x.idx|
    ensures Bottom(x.idx + [e], secSize, i) == Bottom(x.idx, secSize, i)
    ensures Bottom(x.idx + [e], secSize, |x.idx| + 1) == Bottom(x.idx, secSize, |x.idx|) - e.len
  {
    BottomPrefix(x.idx, [e], secSize, i);
    BottomPrefix(x.idx, [e], secSize, |x.idx|);
  }

  lemma SliceAbove(d: seq<bv8>, p: seq<bv8>, a: nat, lo: nat, hi: nat)
    requires a + |p| <= lo <= hi <= |d|
    ensures (d[..a] + p + d[a + |p|..])[lo..hi] == d[lo..hi]
  {
  }

  /** An earlier log reads back unchanged after its sector has taken another one. */
  lemma EarlierLogKept(x: TsSector, secSize: nat, time: int, payload: seq<bv8>, addr: nat, i: nat)
    requires SectorInv(x, secSize) && i < |x.idx|
    requires addr + |payload| == Bottom(x.idx, secSize, |x.idx|)
    ensures LogAt(WithLog(x, time, payload, addr), i) == LogAt(x, i)
  {
    BottomMonotone(x.idx, secSize, i + 1, |x.idx|);
    BottomMonotone(x.idx, secSize, 0, i);
    SliceAbove(x.data, payload, addr, x.idx[i].addr, x.idx[i].addr + x.idx[i].len);
  }

  lemma LogsAppended(x: TsSector, secSize: nat, time: int, payload: seq<bv8>, addr: nat)
    requires SectorInv(x, secSize)
    requires addr + |payload| == Bottom(x.idx, secSize, |x.idx|)
    ensures Logs(WithLog(x, time, payload, addr)) == Logs(x) + [Log(TSL_WRITE, time, payload)]
  {
    var n, y := |x.idx|, WithLog(x, time, payload, addr);
    forall i: nat | i < n ensures LogAt(y, i) == LogAt(x, i) {
      EarlierLogKept(x, secSize, time, payload, addr, i);
    }
    assert y.data[addr..addr + |payload|] == payload;
    assert LogAt(y, n) == Log(TSL_WRITE, time, payload);
  }

  lemma InvAppended(x: TsSector, secSize: nat, time: int, payload: seq<bv8>, addr: nat, start: int)
    requires SectorInv(x, secSize) && x.store != STORE_FULL
    requires x.idx == [] || x.idx[|x.idx| - 1].time < time
    requires addr + |payload| == Bottom(x.idx, secSize, |x.idx|) && time > 0 && IdxOff(|x.idx| + 1) <= addr
    requires start == if x.idx == [] then time else x.startTime
    ensures var y := WithLog(x, time, payload, addr).(store := STORE_USING, startTime := start);
            SectorInv(y, secSize) && Bottom(y.idx, secSize, |y.idx|) == addr
  {
    var n, e := |x.idx|, Idx(TSL_WRITE, time, |payload|, addr);
    var y := WithLog(x, time, payload, addr).(store := STORE_USING, startTime := start);
    forall i: nat | i <= n ensures Bottom(y.idx, secSize, i) == Bottom(x.idx, secSize, i) {
      AppendedBottom(x, secSize, e, i);
    }
    AppendedBottom(x, secSize, e, n);
    forall o | IdxOff(n + 1) <= o < addr ensures y.data[o] == ERASED_BYTE {
    }
    assert forall i, j :: 0 <= i < j < n + 1 ==> y.idx[i].time < y.idx[j].time;
  }
}
