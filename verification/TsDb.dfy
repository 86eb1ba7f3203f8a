/**
 The time-series database: `fdb_tsdb.c` as a class.  `sectors` is the flash; the other fields are those
 of the database object.
 */
module TsDb {
  import opened FdbDef
  import opened LittleEndian
  import opened Status
  import opened TsFlash
  import opened TsRing
  import opened TsQuery
  import opened Wrappers
  import opened WalkOrder

  /** The RAM copy of what is known about a sector.  `stat0` and `stat1` say that the end infos in its
      header have been written. */
  datatype SecInfo = SecInfo(sec: nat, status: Store, startTime: int, endTime: int, endIdx: nat,
                             stat0: bool, stat1: bool, remain: int, emptyIdx: nat, emptyData: int)

  class TsDatabase {
    const secSize: nat
    const maxLen: nat
    var sectors: seq<TsSector>
    var cur: SecInfo
    var lastTime: int
    var oldest: nat
    var rollover: bool
    ghost var used: nat         // the sectors that hold logs, counted from the oldest

    ghost predicate Config()
      reads this
    {
      2 <= |sectors| && oldest < |sectors| && cur.sec < |sectors| && TS_HDR + IDX + maxLen <= secSize
    }

    /** The RAM copy agrees with the flash. */
    ghost predicate CurInv()
      requires cur.sec < |sectors|
      reads this
    {
      var x := sectors[cur.sec];
      && cur.status == x.store
      && (x.store != STORE_FULL ==> !cur.stat0) && cur.stat1 == x.end1.End? && cur.startTime == x.startTime
      && cur.emptyIdx == IdxOff(|x.idx|)
      && cur.emptyData == Bottom(x.idx, secSize, |x.idx|)
      && cur.remain == cur.emptyData - cur.emptyIdx
      && (x.idx != [] ==>
            cur.endTime == LastTime(x) && cur.endIdx == IdxOff(|x.idx| - 1))
    }

    ghost predicate Valid()
      reads this
    {
      && Config() && CurInv()
      && RingInv(Ring(sectors, oldest), used, secSize)
      && (used < |sectors| ==> oldest == 0)
      && cur.sec == SectorAt(oldest, if used == 0 then 0 else used - 1, |sectors|)
      && lastTime >= 0 && lastTime == LastTime(sectors[cur.sec])
      && (cur.status == STORE_FULL ==> used == |sectors|)
    }

    /** A database that has just been formatted (`tsl_format_all`). */
    constructor (size: nat, longest: nat, n: nat)
      requires 2 <= n && TS_HDR + IDX + longest <= size
      ensures Valid() && All() == [] && rollover
      ensures secSize == size && maxLen == longest && |sectors| == n && used == 0
      ensures cur.sec == 0 && cur.status == STORE_EMPTY && cur.remain == size - TS_HDR && lastTime == 0
    {
      hide RingInv; hide SectorInv; hide Flat; hide Ring;
      secSize, maxLen := size, longest;
      sectors := seq(n, _ => Blank(size));
      cur := SecInfo(0, STORE_EMPTY, -1, 0, 0, false, false, size - TS_HDR, TS_HDR, size);
      lastTime, oldest, rollover, used := 0, 0, true, 0;
      new;
      BlankOk(size);
      FreshRing(sectors, size);
    }

    /** All logs, oldest first. */
    ghost function All(): seq<Log>
      requires oldest <= |sectors|
      reads this
    {
      Flat(Ring(sectors, oldest))
    }

    // -------------------------------------------------------------- reading

    /** `read_sector_info`.  End time and end index keep their value unless something says otherwise. */
    method ReadSectorInfo(s: nat, traversal: bool, prior: SecInfo) returns (info: SecInfo)
      requires s < |sectors| && SectorInv(sectors[s], secSize)
      ensures info.sec == s && info.status == sectors[s].store && info.startTime == sectors[s].startTime
      ensures info.stat0 == sectors[s].end0.End? && info.stat1 == sectors[s].end1.End?
      ensures info.remain == info.emptyData - info.emptyIdx
      ensures !(traversal && sectors[s].store == STORE_USING && sectors[s].idx != []) ==>
                var x := sectors[s];
                && info.endTime == (if x.end0.End? then x.end0.time else if x.end1.End? then x.end1.time else prior.endTime)
                && info.endIdx == (if x.end0.End? then x.end0.idx else if x.end1.End? then x.end1.idx else prior.endIdx)
      ensures var x := sectors[s]; var n := if traversal && x.store == STORE_USING then |x.idx| else 0;
              && info.emptyIdx == IdxOff(n) && info.emptyData == Bottom(x.idx, secSize, n)
              && (n > 0 ==> info.endTime == LastTime(x) && info.endIdx == IdxOff(n - 1))
    {
      var x := sectors[s];
      info := SecInfo(s, x.store, x.startTime, prior.endTime, prior.endIdx, x.end0.End?, x.end1.End?,
                      secSize - TS_HDR, TS_HDR, secSize);
      if x.end0.End? {
        info := info.(endTime := x.end0.time, endIdx := x.end0.idx);
      } else if x.end1.End? {
        info := info.(endTime := x.end1.time, endIdx := x.end1.idx);
      }
      if x.store == STORE_USING && traversal {
        var i, going := 0, true;
        while going
          invariant i <= |x.idx| && x == sectors[s]
          invariant info.sec == s && info.status == x.store && info.startTime == x.startTime
          invariant info.stat0 == x.end0.End? && info.stat1 == x.end1.End?
          invariant info.emptyIdx == IdxOff(i) && info.emptyData == Bottom(x.idx, secSize, i)
          invariant info.remain == info.emptyData - info.emptyIdx
          invariant i > 0 ==> info.endTime == x.idx[i - 1].time && info.endIdx == IdxOff(i - 1)
          invariant !going ==> i == |x.idx|
          invariant going && i > 0 ==> info.remain > 0
          decreases |x.idx| - i, going
        {
          if i == |x.idx| {
            // the status byte behind the last index is erased: the slot reads as unused
            assert x.data[IdxOff(i)] == ERASED_BYTE;
            going := false;
          } else {
            var e := x.idx[i];
            BottomMonotone(x.idx, secSize, i + 1, |x.idx|);
            info := info.(endTime := e.time, endIdx := info.emptyIdx,
                          emptyIdx := info.emptyIdx + IDX, emptyData := info.emptyData - e.len);
            i := i + 1;
            if info.remain > IDX + e.len {
              info := info.(remain := info.remain - (IDX + e.len));
            } else {
              info := info.(remain := 0);
              going := false;
            }
          }
        }
      }
    }

    // -------------------------------------------------------------- appending

    method FormatSector(s: nat)
      requires s < |sectors|
      modifies this`sectors
      ensures sectors == old(sectors)[s := Blank(secSize)]
    {
      sectors := sectors[s := Blank(secSize)];
    }

    /** Save the end node of the current sector and mark it full. */
    method CloseSector()
      requires Valid() && cur.status == STORE_USING
      modifies this`sectors, this`cur
      ensures |sectors| == |old(sectors)| && cur.sec < |sectors|
      ensures sectors == Closed(old(sectors), cur.sec) && cur == old(cur).(status := STORE_FULL)
    {
      var c := cur.sec;
      ghost var x := sectors[c];
      var endIndex := cur.emptyIdx - IDX;
      CurrentUsing(sectors, oldest, used, secSize, c);
      if !cur.stat0 {
        sectors := sectors[c := sectors[c].(end0 := End(lastTime, endIndex))];
      } else if !cur.stat1 {
        assert false;  // a sector that is still in use has its first end info unwritten
      }
      sectors := sectors[c := sectors[c].(store := STORE_FULL)];
      cur := cur.(status := STORE_FULL);
      assert sectors[c] == Filled(x);
    }

    /** The ring wraps onto its oldest sector, which loses its logs and becomes the current one. */
    method GiveUp(next: nat)
      requires 2 <= used == |sectors| && next == oldest < |sectors| && TS_HDR + IDX + maxLen <= secSize
      requires RingInv(Ring(sectors, oldest), used, secSize) && |Ring(sectors, oldest)| == |sectors|
      requires Ring(sectors, oldest)[used - 1].store == STORE_FULL
      modifies this`sectors, this`cur, this`oldest, this`used
      ensures |sectors| == |old(sectors)| && Config() && CurInv() && sectors == old(sectors)[next := Blank(secSize)]
      ensures cur.sec == next && cur.status == STORE_EMPTY && cur.remain == secSize - TS_HDR
      ensures oldest == Next(next, |sectors|) && used == |sectors| - 1 && |Ring(sectors, oldest)| == |sectors|
      ensures RingInv(Ring(sectors, oldest), used, secSize)
      ensures Ring(sectors, oldest)[used - 1] == old(Ring(sectors, oldest)[used - 1])
      ensures |Logs(old(sectors)[next])| <= |old(All())| && All() == old(All())[|Logs(old(sectors)[next])|..]
    {
      hide RingInv; hide SectorInv; hide Flat; hide Logs; hide Ring;
      Dropping(sectors, oldest, secSize);
      oldest := Next(next, |sectors|);
      FormatSector(next);
      BlankOk(secSize);
      cur := ReadSectorInfo(next, false, cur);
      used := |sectors| - 1;
    }

    /** Close the current sector and go to the next one, which loses its old logs if the ring wraps onto it. */
    method NextSector() returns (err: FdbErr)
      requires Valid() && cur.status == STORE_USING
      modifies this`sectors, this`cur, this`oldest, this`used
      ensures err == if old(cur).sec + 1 == |old(sectors)| && !rollover then SAVED_FULL else NO_ERR
      ensures |sectors| == |old(sectors)| && Config() && CurInv() && lastTime >= 0
      ensures err == SAVED_FULL ==> Valid() && All() == old(All()) && cur.status == STORE_FULL && used == old(used)
      ensures sectors[old(cur).sec].store == STORE_FULL && sectors[old(cur).sec].idx == old(sectors)[old(cur).sec].idx
      ensures err == NO_ERR ==>
                && 0 < used < |sectors| && RingInv(Ring(sectors, oldest), used, secSize)
                && cur.status == STORE_EMPTY && cur.sec == SectorAt(oldest, used, |sectors|)
                && Ring(sectors, oldest)[used - 1].store == STORE_FULL
                && LastTime(Ring(sectors, oldest)[used - 1]) == lastTime
                && cur.remain == secSize - TS_HDR && cur.sec == Next(old(cur).sec, |sectors|)
      ensures err == NO_ERR && old(used) < |sectors| ==> All() == old(All()) && used == old(used) && oldest == 0
      ensures err == NO_ERR && old(used) == |sectors| ==>
                && |Logs(old(sectors)[old(oldest)])| <= |old(All())| && used == |sectors| - 1
                && All() == old(All())[|Logs(old(sectors)[old(oldest)])|..]
    {
      hide RingInv; hide SectorInv; hide Flat; hide Logs; hide Ring;
      var c, n := cur.sec, |sectors|;
      UsingUsed(sectors, oldest, used, secSize, c);
      Closing(sectors, oldest, used, secSize, c);
      CloseSector();
      var next: nat;
      if c + 1 < n {
        next := c + 1;
      } else if rollover {
        next := 0;
      } else {
        return SAVED_FULL;
      }
      EachSector(sectors, oldest, used, secSize, next);
      cur := ReadSectorInfo(next, false, cur);
      if cur.status != STORE_EMPTY {
        GiveUp(next);
      }
      return NO_ERR;
    }

    /** The first log of a sector is about to be written. */
    method OpenSector(time: int)
      requires cur.sec < |sectors|
      modifies this`sectors, this`cur
      ensures |sectors| == |old(sectors)| && cur.sec == old(cur.sec)
      ensures sectors == old(sectors)[cur.sec := old(sectors)[cur.sec].(store := STORE_USING, startTime := time)]
      ensures cur == old(cur).(status := STORE_USING, startTime := time)
    {
      var c := cur.sec;
      cur := cur.(status := STORE_USING, startTime := time);
      sectors := sectors[c := sectors[c].(store := STORE_USING)];
      sectors := sectors[c := sectors[c].(startTime := time)];
    }

    /** `write_tsl`: the index slot and the data area it programs are erased. */
    method WriteTsl(payload: seq<bv8>, time: int)
      requires cur.sec < |sectors| && |sectors[cur.sec].data| == secSize
      requires cur.emptyIdx == IdxOff(|sectors[cur.sec].idx|) && cur.emptyIdx + IDX + |payload| <= cur.emptyData <= secSize
      requires forall o :: cur.emptyIdx <= o < cur.emptyData ==> sectors[cur.sec].data[o] == ERASED_BYTE
      modifies this`sectors
      ensures sectors == old(sectors)[cur.sec := WithLog(old(sectors)[cur.sec], time, payload, cur.emptyData - |payload|)]
    {
      var c, addr := cur.sec, cur.emptyData - |payload|;
      var idx := sectors[c].idx;
      sectors := sectors[c := sectors[c].(idx := idx + [Idx(TSL_PRE_WRITE, UNWRITTEN, UNWRITTEN, UNWRITTEN)])];
      sectors := sectors[c := sectors[c].(idx := idx + [Idx(TSL_PRE_WRITE, time, |payload|, addr)])];
      var d := sectors[c].data;
      assert forall o :: addr <= o < addr + |payload| ==> d[o] == ERASED_BYTE;
      sectors := sectors[c := sectors[c].(data := d[..addr] + payload + d[addr + |payload|..])];
      sectors := sectors[c := sectors[c].(idx := idx + [Idx(TSL_WRITE, time, |payload|, addr)])];
    }

    /** A log of this length does not fit behind the others in the current sector. */
    predicate NeedsNew(len: nat)
      reads this
    {
      cur.status == STORE_USING && cur.remain < IDX + len
    }

    /** The oldest sector makes room for a log of this length. */
    ghost predicate Wraps(len: nat)
      reads this
    {
      NeedsNew(len) && used == |sectors|
    }

    /** An append of a log of this length, if it is taken, leaves the other logs alone. */
    ghost predicate KeepsAll(len: nat)
      reads this
    {
      !NeedsNew(len) || used < |sectors| || cur.sec + 1 == |sectors|
    }

    /** What the RAM copy decides is what the flash says. */
    lemma NeedsNewExact(len: nat)
      requires Valid()
      ensures NeedsNew(len) <==> sectors[cur.sec].store == STORE_USING && !HasRoom(sectors[cur.sec], secSize, len)
    {
      hide RingInv; hide Ring; hide Bottom;
    }

    /** `tsl_append`.  A sector is closed if and only if the log does not fit into it. */
    method Append(payload: seq<bv8>, time: int) returns (err: FdbErr)
      requires Valid()
      modifies this`sectors, this`cur, this`lastTime, this`oldest, this`used
      ensures Valid() && |sectors| == |old(sectors)|
      ensures var x := old(sectors)[old(cur).sec];
              err == if |payload| > maxLen || time <= old(lastTime) then WRITE_ERR
                     else if x.store == STORE_FULL || (x.store == STORE_USING && !HasRoom(x, secSize, |payload|)
                                                       && old(cur).sec + 1 == |sectors| && !rollover) then SAVED_FULL
                     else NO_ERR
      ensures err != NO_ERR ==> All() == old(All()) && lastTime == old(lastTime)
      ensures var x := old(sectors)[old(cur).sec];
              && (err == WRITE_ERR ==> sectors == old(sectors))
              && (err == NO_ERR && (x.store == STORE_USING ==> HasRoom(x, secSize, |payload|)) ==>
                    cur.sec == old(cur).sec && All() == old(All()) + [Log(TSL_WRITE, time, payload)])
              && (err != WRITE_ERR && x.store == STORE_USING && !HasRoom(x, secSize, |payload|) ==>
                    && old(cur).sec < |sectors|
                    && sectors[old(cur).sec].store == STORE_FULL && sectors[old(cur).sec].idx == x.idx
                    && (err == NO_ERR <==> old(cur).sec + 1 < |sectors| || rollover))
      ensures err == NO_ERR ==>
                var gone := if old(Wraps(|payload|)) then |Logs(old(sectors)[old(oldest)])| else 0;
                && lastTime == time && gone <= |old(All())|
                && All() == old(All())[gone..] + [Log(TSL_WRITE, time, payload)]
      // with rollover off all logs stay exactly if the next sector is free or there is none
      ensures err in {NO_ERR, SAVED_FULL} && !rollover ==> (old(All()) <= All() <==> old(KeepsAll(|payload|)))
      ensures err == NO_ERR ==>
                && cur.status == STORE_USING
                && cur.sec == (if old(NeedsNew(|payload|)) then Next(old(cur).sec, |sectors|) else old(cur).sec)
                && cur.remain == (if old(NeedsNew(|payload|)) then secSize - TS_HDR else old(cur).remain) - (IDX + |payload|)
                && used == if !old(NeedsNew(|payload|)) && old(cur).status == STORE_USING then old(used)
                           else if old(used) < |sectors| then old(used) + 1 else old(used)
    {
      hide RingInv; hide Flat; hide Logs; hide Ring; hide Sorted; hide SectorInv;
      FrontGone();
      NeedsNewExact(|payload|);
      hide HasRoom;
      if |payload| > maxLen || time <= lastTime {
        return WRITE_ERR;
      }
      EachSector(sectors, oldest, used, secSize, cur.sec);
      var len := |payload|;
      if cur.status == STORE_USING && cur.remain < IDX + len {
        err := NextSector();
        if err != NO_ERR {
          return;
        }
        EachSector(sectors, oldest, used, secSize, cur.sec);
      } else if cur.status == STORE_FULL {
        return SAVED_FULL;
      }
      AppendTo(payload, time);
      return NO_ERR;
    }

    /** The rest of an append, once the current sector has room. */
    method AppendTo(payload: seq<bv8>, time: int)
      requires Config() && CurInv() && RingInv(Ring(sectors, oldest), used, secSize)
      requires cur.status in {STORE_EMPTY, STORE_USING} && time > lastTime >= 0 && cur.remain >= IDX + |payload|
      requires cur.status == STORE_USING ==> Valid()
      requires cur.status == STORE_EMPTY ==> used < |sectors| && cur.sec == SectorAt(oldest, used, |sectors|)
      requires cur.status == STORE_EMPTY && used + 1 < |sectors| ==> oldest == 0
      requires cur.status == STORE_EMPTY && used > 0 ==>
                 var last := Ring(sectors, oldest)[used - 1]; last.store == STORE_FULL && LastTime(last) == lastTime
      modifies this`sectors, this`cur, this`lastTime, this`used
      ensures Valid() && |sectors| == |old(sectors)|
      ensures forall s: nat :: s < |sectors| && s != cur.sec ==> sectors[s] == old(sectors)[s]
      ensures lastTime == time && All() == old(All()) + [Log(TSL_WRITE, time, payload)]
      ensures cur.status == STORE_USING && cur.sec == old(cur).sec && cur.remain == old(cur).remain - (IDX + |payload|)
      ensures used == if old(cur).status == STORE_USING then old(used) else old(used) + 1
    {
      hide RingInv; hide Flat; hide Logs; hide Ring; hide SectorInv;
      var c := cur.sec;
      ghost var x := sectors[c];
      EachSector(sectors, oldest, used, secSize, c);
      Appending(sectors, oldest, used, secSize, c, payload, time, cur.emptyData - |payload|);
      if cur.status == STORE_EMPTY {
        OpenSector(time);
        used := used + 1;
      }
      WriteTsl(payload, time);
      assert sectors[c] == Appended(x, payload, time, cur.emptyData - |payload|);
      assert sectors == old(sectors)[c := sectors[c]];
      cur := cur.(endIdx := cur.emptyIdx, endTime := time, emptyIdx := cur.emptyIdx + IDX,
                  emptyData := cur.emptyData - |payload|, remain := cur.remain - (IDX + |payload|));
      lastTime := time;
    }

    /** What an append that gives up the oldest sector does to the sequence shows. */
    lemma FrontGone()
      requires Valid()
      ensures used == |sectors| ==>
                forall x: Log :: |Logs(sectors[oldest])| <= |All()| && !(All() <= All()[|Logs(sectors[oldest])|..] + [x])
    {
      hide RingInv; hide Flat; hide Logs; hide Ring; hide Sorted;
      if used == |sectors| {
        RingIndex(sectors, oldest, 0);
        RingLength(sectors, oldest, used, secSize);
        OldestHolds(Ring(sectors, oldest), secSize);
        forall x: Log ensures !(All() <= All()[|Logs(sectors[oldest])|..] + [x]) {
          FrontShows(All(), |Logs(sectors[oldest])|, x);
        }
      }
    }

    /** `FDB_TSDB_CTRL_SET_ROLLOVER`. */
    method SetRollover(on: bool)
      requires Valid()
      modifies this`rollover
      ensures Valid() && rollover == on && All() == old(All())
    {
      hide RingInv; hide Flat; hide Ring;
      rollover := on;
    }

    // -------------------------------------------------------------- queries

    /** `read_tsl`, for the index slot at `addr`; `beyond` are the bytes behind the sector. */
    method ReadTsl(s: nat, addr: int, beyond: seq<bv8>, ghost i: nat) returns (t: Log)
      requires s < |sectors| && SectorInv(sectors[s], secSize)
      requires addr == IdxOff(i) && i <= |sectors[s].idx|
      ensures t == SlotAt(sectors[s], SlotBehind(sectors[s], secSize, beyond), i)
      ensures i < |sectors[s].idx| ==> t.time == sectors[s].idx[i].time
    {
      var x, k := sectors[s], (addr - TS_HDR) / IDX;
      if k < |x.idx| {
        t := LogAt(x, k);
      } else if addr < Bottom(x.idx, secSize, |x.idx|) {
        assert x.data[addr] == ERASED_BYTE;
        t := Log(TSL_UNUSED, 0, []);
      } else {
        var all := x.data + beyond;
        if addr + IDX <= |all| {
          var b := all[addr..addr + IDX];
          var status := GetStatus(b[..1], 6);
          t := if TslOf(status) in {TSL_UNUSED, TSL_PRE_WRITE} then Log(TslOf(status), 0, [])
               else Log(TslOf(status), Signed(FromLe32(b[4..8])), []);
        } else {
          t := Log(TSL_UNUSED, 0, []);
        }
      }
    }

    /** `search_start_tsl_addr`: binary search over the index slots of a sector. */
    method SearchStart(s: nat, first: int, last: int, from: int, to: int, beyond: seq<bv8>) returns (addr: int, ghost i: nat)
      requires s < |sectors| && SectorInv(sectors[s], secSize) && sectors[s].idx != []
      requires first == TS_HDR && last == IdxOff(|sectors[s].idx| - 1)
      requires from > to ==> 0 < FirstTime(sectors[s]) <= from
      ensures addr == IdxOff(i) && i <= |sectors[s].idx|
      ensures TS_HDR <= addr <= last + IDX
      ensures from <= to ==>
                forall k :: 0 <= k < |sectors[s].idx| ==> (sectors[s].idx[k].time < from <==> IdxOff(k) < addr)
      ensures from <= to ==> StartForward(sectors[s], i, from)
      ensures from > to ==> StartBackward(sectors[s], i, from, SlotBehind(sectors[s], secSize, beyond))
    {
      hide *;
      ghost var x, tail := sectors[s], SlotBehind(sectors[s], secSize, beyond);
      ghost var lo: int, hi: int := 0, |x.idx| - 1;
      var start, end := first, last;
      SearchBegin(x, secSize, from);
      SlotOffs(0, hi);
      while start <= end
        invariant 0 <= lo <= hi + 1 <= |x.idx| && Bracket(x.idx, lo, hi, from)
        invariant start == SlotOff(lo) && end == SlotOff(hi) && (start <= end <==> lo <= hi)
        decreases hi - lo
      {
        ghost var mid := Middle(lo, hi);
        HalfWay(lo, hi);
        SlotOffs(mid, mid);
        var at := start + Align((end - start) / 2, IDX);
        var t := ReadTsl(s, at, beyond, mid);
        SearchStep(x, secSize, lo, hi, mid, from, tail);
        if t.time < from {
          start := at + IDX;
          lo := mid + 1;
        } else if t.time > from {
          end := at - IDX;
          hi := mid - 1;
        } else {
          SlotsBefore(x, mid, from);
          return at, mid;
        }
        SlotOffs(lo, hi);
      }
      SlotOffs(lo, lo);
      SlotsBefore(x, lo, from);
      SearchEnd(x, lo, hi, from, tail);
      if from > to {
        var t := ReadTsl(s, start, beyond, lo);
        if t.time > from {
          start := start - IDX;
          lo := lo - 1;
          SlotOffs(lo, lo);
          SlotsBefore(x, lo, from);
        }
      }
      return start, lo;
    }

    /** What an iterator knows about a sector: the RAM copy for the sector in use. */
    method SectorForIter(s: nat) returns (info: SecInfo)
      requires Valid() && s < |sectors|
      ensures info.status == sectors[s].store && SectorInv(sectors[s], secSize)
      ensures info.status in {STORE_USING, STORE_FULL} ==>
                && sectors[s].idx != [] && info.startTime == FirstTime(sectors[s])
                && info.endTime == LastTime(sectors[s]) && info.endIdx == IdxOff(|sectors[s].idx| - 1)
    {
      hide RingInv; hide Ring;
      EachSector(sectors, oldest, used, secSize, s);
      OnlyCurrent(sectors, oldest, used, secSize, s);
      info := ReadSectorInfo(s, false, cur);
      if info.status == STORE_USING {
        info := cur;
      }
    }

    /** A query forward in time calls back on the logs of one sector; `rest` is to come from the sectors behind it. */
    method ForwardSector(s: nat, info: SecInfo, from: int, to: int, cb: seq<Log> -> bool, before: seq<Log>,
                         ghost rest: seq<Log>, ghost want: seq<Log>)
      returns (visited: seq<Log>, exit: bool)
      requires s < |sectors| && SectorInv(sectors[s], secSize) && sectors[s].idx != []
      requires info.endIdx == IdxOff(|sectors[s].idx| - 1)
      requires from <= to && from <= LastTime(sectors[s]) && GoesOn(before, cb)
      requires LastTime(sectors[s]) > to ==> rest == []
      requires Owes(before, Select(Logs(sectors[s]), from, to) + rest, want)
      ensures if exit then Delivered(visited, want, cb) else Owes(visited, rest, want) && GoesOn(visited, cb)
    {
      hide *;
      ghost var x, l := sectors[s], Logs(sectors[s]);
      SectorTimes(x, secSize);
      OwesInTurn(before, Select(l, from, to), rest, want);
      var addr, i := SearchStart(s, TS_HDR, info.endIdx, from, to, []);
      visited := before;
      SkipOld(x, secSize, i, from, to, before);
      var going := true;
      while going
        invariant i <= |l| && addr == IdxOff(i) && (going ==> i < |l|) && (!going ==> i == |l|)
        invariant NotBefore(l, i, from)
        invariant visited == SoFar(before, l, i, from, to) && GoesOn(visited, cb)
        decreases |l| - i
      {
        var t := ReadTsl(s, addr, [], i);
        LogsAt(x, SlotBehind(x, secSize, []), i);
        Later(l, i, from);
        OffIs(i + 1);
        OffOrder(i, |l|);
        if from <= t.time <= to {
          ForwardStep(l, i, from, to, cb, before, rest, visited);
          visited := visited + [t];
          if cb(visited) {
            return visited, true;
          }
        } else {
          ForwardEnd(l, i, from, to, cb, before, rest, visited);
          return visited, true;
        }
        going := addr + IDX <= info.endIdx;
        addr, i := addr + IDX, i + 1;
      }
      exit := false;
      SoFarAll(before, l, from, to);
    }

    /** A query back in time calls back on the logs of one sector, and on the slot behind them if it misreads it. */
    method BackwardSector(s: nat, info: SecInfo, from: int, to: int, cb: seq<Log> -> bool, beyond: seq<bv8>,
                          before: seq<Log>, ghost rest: seq<Log>, ghost want: seq<Log>)
      returns (visited: seq<Log>, exit: bool)
      requires s < |sectors| && SectorInv(sectors[s], secSize) && sectors[s].idx != []
      requires info.endIdx == IdxOff(|sectors[s].idx| - 1)
      requires from > to && 0 < FirstTime(sectors[s]) <= from && GoesOn(before, cb)
      requires FirstTime(sectors[s]) < to ==> rest == []
      requires want == FedOne(sectors[s], SlotBehind(sectors[s], secSize, beyond), from, to, before, rest)
      ensures if exit then Delivered(visited, want, cb)
              else Owes(visited, rest, want) && GoesOn(visited, cb) && FirstTime(sectors[s]) >= to
    {
      hide *;
      ghost var x, t := sectors[s], SlotBehind(sectors[s], secSize, beyond);
      var addr, i := SearchStart(s, TS_HDR, info.endIdx, from, to, beyond);
      visited := before;
      SkipNew(x, secSize, i, from, to, before, t);
      var going := true;
      while going
        invariant 0 <= i <= |x.idx| && addr == IdxOff(i) && GoesOn(visited, cb)
        invariant if going then AtSlot(x, t, i, from, to, before, visited)
                  else Owes(visited, rest, want) && FirstTime(x) >= to
        decreases i, going
      {
        var log := ReadTsl(s, addr, beyond, i);
        SlotCall(x, secSize, t, i, from, to, cb, before, rest, visited);
        if log.status != TSL_UNUSED {
          if to <= log.time <= from {
            visited := visited + [log];
            if cb(visited) {
              return visited, true;
            }
          } else {
            return visited, true;
          }
        }
        PastIs(x, t, i, from, to, before, rest, visited);
        OffIs(i);
        going := addr >= TS_HDR + IDX;
        if going {
          addr, i := addr - IDX, i - 1;
        }
      }
      exit := false;
    }

    /** The slots behind the last indexes, in ring order. */
    ghost function Tails(beyond: seq<seq<bv8>>): (q: seq<Log>)
      requires oldest < |sectors| == |beyond|
      ensures |q| == |Ring(sectors, oldest)| == |sectors|
      reads this
    {
      var n, all, first := |sectors|, sectors, oldest;
      seq(n, j requires 0 <= j < n => SlotBehind(all[SectorAt(first, j, n)], secSize, beyond[SectorAt(first, j, n)]))
    }

    /** `fdb_tsl_iter_by_time` with `from <= to`. */
    method IterForward(from: int, to: int, cb: seq<Log> -> bool) returns (visited: seq<Log>)
      requires Valid() && from <= to
      ensures Delivered(visited, Select(All(), from, to), cb)
    {
      hide *;
      RingFacts();
      NothingYet(cb);
      ghost var r, want := Ring(sectors, oldest), Select(All(), from, to);
      FirstSlot(oldest, |sectors|);
      AheadEnds(r, from, to);
      var n, j, found := |sectors|, 0, false;
      var s: nat := oldest;
      visited := [];
      while j < n
        invariant j <= n == |r| && GoesOn(visited, cb)
        invariant j < n ==> s < n && s == SectorAt(oldest, j, n)
        invariant Owes(visited, Ahead(r, j, from, to), want)
        invariant found ==> 0 < j <= used && from <= LastTime(r[j - 1])
      {
        var info := SectorForIter(s);
        RingIndex(sectors, oldest, j);
        UsedSector(r, used, secSize, j);
        if info.status == STORE_USING || info.status == STORE_FULL {
          ForwardSplit(r, used, secSize, j, from, to, visited, want);
          if found || (j == 0 && from <= info.startTime) || from <= info.endTime {
            found := true;
            var exit: bool;
            visited, exit := ForwardSector(s, info, from, to, cb, visited, Ahead(r, j + 1, from, to), want);
            if exit {
              return;
            }
          }
        } else {
          AheadNone(r, used, secSize, j, from, to);
          PaidOff(visited, want, cb);
          return;
        }
        NextSlot(oldest, j, n);
        s, j := Next(s, n), j + 1;
      }
      PaidOff(visited, want, cb);
    }

    /** `fdb_tsl_iter_by_time` with `from > to`. */
    method IterBackward(from: int, to: int, cb: seq<Log> -> bool, beyond: seq<seq<bv8>>) returns (visited: seq<Log>)
      requires Valid() && from > to && |beyond| == |sectors|
      ensures Delivered(visited, Fed(Ring(sectors, oldest), Tails(beyond), used, from, to), cb)
    {
      hide *;
      RingFacts();
      NothingYet(cb);
      ghost var r, q := Ring(sectors, oldest), Tails(beyond);
      ghost var want := Fed(r, q, used, from, to);
      OwesAll(want);
      FedNone(r, q, from, to);
      NoneUsed(sectors, oldest, used, secSize);
      var n, done, found := |sectors|, 0, false;
      var s: nat := cur.sec;
      visited := [];
      while done < n
        invariant done <= used <= n == |r| == |q| && s < n == |sectors| && GoesOn(visited, cb)
        invariant Owes(visited, Fed(r, q, used - done, from, to), want)
        invariant if done < used then s == SectorAt(oldest, used - done - 1, n)
                  else done < n ==> sectors[s].store == STORE_EMPTY
        invariant found ==> 0 < done && FirstTime(r[used - done]) <= from
      {
        var info := SectorForIter(s);
        if info.status == STORE_USING || info.status == STORE_FULL {
          ghost var k := used - done;
          RingIndex(sectors, oldest, k - 1);
          TailAt(beyond, k - 1);
          BackwardSplit(r, q, used, secSize, k, from, to, visited, want);
          ghost var rest := if FirstTime(r[k - 1]) < to then [] else Fed(r, q, k - 1, from, to);
          if found || (done == 0 && from >= info.endTime) || from >= info.startTime {
            found := true;
            var exit: bool;
            visited, exit := BackwardSector(s, info, from, to, cb, beyond[s], visited, rest, want);
            if exit {
              return;
            }
          }
          PreviousSlot(sectors, oldest, used, secSize, k - 1);
        } else {
          UsedSector(r, used, secSize, if done < used then used - done - 1 else 0);
          RingIndex(sectors, oldest, if done < used then used - done - 1 else 0);
          PaidOff(visited, want, cb);
          return;
        }
        s, done := Previous(s, n), done + 1;
      }
      PaidOff(visited, want, cb);
    }

    lemma RingFacts()
      requires Valid()
      ensures oldest < |sectors| && cur.sec < |sectors| && |Ring(sectors, oldest)| == |sectors| && used <= |sectors|
      ensures RingInv(Ring(sectors, oldest), used, secSize) && All() == Flat(Ring(sectors, oldest))
      ensures used < |sectors| ==> oldest == 0
      ensures used > 0 ==> cur.sec == SectorAt(oldest, used - 1, |sectors|)
    {
      RingLength(sectors, oldest, used, secSize);
    }

    lemma TailAt(beyond: seq<seq<bv8>>, j: nat)
      requires oldest < |sectors| == |beyond| && j < |sectors|
      ensures var s := SectorAt(oldest, j, |sectors|); Tails(beyond)[j] == SlotBehind(sectors[s], secSize, beyond[s])
    {
    }

    /** A query back in time delivers the right logs exactly if no sector on its way spoils it. */
    lemma BackwardExact(from: int, to: int, beyond: seq<seq<bv8>>)
      requires Valid() && from > to && |beyond| == |sectors|
      ensures Fed(Ring(sectors, oldest), Tails(beyond), used, from, to) == Rev(Select(All(), to, from))
              <==> forall j :: 0 <= j < used ==> !Spoils(Ring(sectors, oldest), Tails(beyond), used, j, from, to)
    {
      hide *;
      RingFacts();
      FedExact(Ring(sectors, oldest), Tails(beyond), used, secSize, used, from, to);
      WantAll(Ring(sectors, oldest), used, secSize, from, to);
    }

    /** It is right for all times and whatever the data is if every sector with logs keeps a gap. */
    lemma GapsSuffice(from: int, to: int, beyond: seq<seq<bv8>>)
      requires Valid() && from > to && |beyond| == |sectors|
      requires forall s :: 0 <= s < |sectors| ==> IdxOff(|sectors[s].idx|) < Bottom(sectors[s].idx, secSize, |sectors[s].idx|)
      ensures Fed(Ring(sectors, oldest), Tails(beyond), used, from, to) == Rev(Select(All(), to, from))
    {
      forall j | 0 <= j < used ensures !Spoils(Ring(sectors, oldest), Tails(beyond), used, j, from, to) {
        hide RingInv;
        RingFacts();
        TailAt(beyond, j);
      }
      BackwardExact(from, to, beyond);
    }

    /** `fdb_tsl_iter_by_time`. */
    method IterByTime(from: int, to: int, cb: seq<Log> -> bool, beyond: seq<seq<bv8>>) returns (visited: seq<Log>)
      requires Valid() && |beyond| == |sectors|
      ensures from <= to ==> Delivered(visited, Select(All(), from, to), cb)
      ensures from > to ==> Delivered(visited, Fed(Ring(sectors, oldest), Tails(beyond), used, from, to), cb)
      ensures from > to && (forall j :: 0 <= j < used ==> !Spoils(Ring(sectors, oldest), Tails(beyond), used, j, from, to)) ==>
                Delivered(visited, Rev(Select(All(), to, from)), cb)
    {
      hide *;
      RingFacts();
      if from <= to {
        visited := IterForward(from, to, cb);
      } else {
        BackwardExact(from, to, beyond);
        visited := IterBackward(from, to, cb, beyond);
      }
    }

    /** `fdb_tsl_query_count`. */
    method QueryCount(from: int, to: int, status: TslStatus, beyond: seq<seq<bv8>>) returns (count: nat)
      requires Valid() && |beyond| == |sectors|
      ensures from <= to ==> count == |Matching(Select(All(), from, to), status)|
      ensures from > to ==> count == |Matching(Fed(Ring(sectors, oldest), Tails(beyond), used, from, to), status)|
    {
      hide *;
      RingFacts();
      var never := (v: seq<Log>) => false;
      var visited := IterByTime(from, to, never, beyond);
      NeverStops(visited, if from <= to then Select(All(), from, to) else Fed(Ring(sectors, oldest), Tails(beyond), used, from, to), never);
      count := 0;
      MatchingNone(visited, status);
      for i := 0 to |visited|
        invariant count == |Matching(visited[..i], status)|
      {
        MatchingNext(visited, i, status);
        if visited[i].status == status {
          count := count + 1;
        }
      }
      assert visited[..|visited|] == visited;
    }

    /** A database of two sectors of 128 bytes with a single log that fills the first one. */
    lemma OneSector(payload: seq<bv8>, beyond: seq<seq<bv8>>)
      requires Valid() && secSize == 128 && |sectors| == 2 == |beyond| && used == 1
      requires All() == [Log(TSL_WRITE, 5, payload)] && |payload| == 72
      ensures var fed := Fed(Ring(sectors, oldest), Tails(beyond), used, 9, 1);
              && (payload[0] == 0x7F ==> fed == [])
              && (payload[0] == ERASED_BYTE ==> fed == [Log(TSL_WRITE, 5, payload)])
    {
      hide Flat; hide Logs; hide Fed; hide SectorInv; hide SlotBehind; hide Bottom;
      var r := Ring(sectors, oldest);
      assert r == sectors;
      EachSector(sectors, oldest, used, secSize, 1);
      LogsOfTwo(r, secSize);
      FedExactFit(r, Tails(beyond), payload, beyond[0]);
    }

    // -------------------------------------------------------------- restart

    /** `check_sec_hdr_cb` over all sectors, on a flash whose current sector is `c`.  A database in which every sector
        is full has none. */
    method CheckSectorHeaders(ghost c: nat, ghost first: nat)
      returns (found: Option<SecInfo>, empties: nat, lastEmpty: nat, failed: bool)
      requires first < |sectors| && RingInv(Ring(sectors, first), used, secSize) && (used < |sectors| ==> first == 0)
      requires c == SectorAt(first, if used == 0 then 0 else used - 1, |sectors|)
      requires sectors[c].store == STORE_FULL ==> used == |sectors|
      ensures !failed && (found.Some? <==> sectors[c].store != STORE_FULL)
      ensures found.Some? ==> found.value.sec == c
      ensures empties == |sectors| - used && (empties > 0 ==> lastEmpty == |sectors| - 1)
    {
      CurrentKind(sectors, first, used, secSize, c);
      RingLength(sectors, first, used, secSize);
      hide RingInv; hide SectorInv; hide Ring; hide Bottom; hide SectorAt; hide LastTime;
      var n, s := |sectors|, 0;
      found, empties, lastEmpty, failed := None, 0, 0, false;
      var info := NOTHING_READ;
      while s < n && !failed
        invariant s <= n && !failed
        invariant found.None? <==> sectors[c].store == STORE_FULL || s <= c
        invariant found.Some? ==> found.value.sec == c
        invariant empties == if used < n && s > used then s - used else 0
        invariant empties > 0 ==> lastEmpty == s - 1
      {
        Kind(sectors, first, used, secSize, c, s);
        info := ReadSectorInfo(s, false, info);
        info := ReadSectorInfo(s, true, info);
        if info.status == STORE_USING {
          if found.None? {
            found := Some(info);
          } else {
            failed := true;
          }
        } else if info.status == STORE_EMPTY {
          empties, lastEmpty := empties + 1, s;
          if empties == 1 && found.None? {
            found := Some(info);
          }
        }
        s := s + 1;
      }
    }

    /** Where the current and the oldest sector are, from the sector headers alone. */
    method LocateSectors() returns (current: Option<SecInfo>, first: nat)
      requires Valid()
      ensures current.Some? <==> cur.status != STORE_FULL
      ensures current.Some? ==> current.value.sec == cur.sec && first == oldest
    {
      hide *;
      RingFacts();
      CurrentUse();
      var found, empties, lastEmpty, failed := CheckSectorHeaders(cur.sec, oldest);
      OldestBehind(oldest, used, |sectors|);
      current, first := found, 0;
      if current.Some? {
        var latest := if empties > 0 then lastEmpty else current.value.sec;
        first := Next(latest, |sectors|);
      }
    }

    lemma CurrentUse()
      requires Valid()
      ensures cur.status == sectors[cur.sec].store && SectorInv(sectors[cur.sec], secSize)
      ensures cur.sec == SectorAt(oldest, if used == 0 then 0 else used - 1, |sectors|)
      ensures (cur.status == STORE_FULL ==> used == |sectors|) && (used > 0 ==> cur.status in {STORE_USING, STORE_FULL})
      ensures used == 0 ==> cur.status == STORE_EMPTY && oldest == cur.sec == 0 && lastTime == 0 && sectors[cur.sec].idx == []
    {
      CurrentKind(sectors, oldest, used, secSize, cur.sec);
      EachSector(sectors, oldest, used, secSize, cur.sec);
    }

    /** `fdb_tsdb_init` on a flash that this database has written: only the flash is looked at.  It finds the current
        sector exactly if the database was not closed for being full with rollover off; without one the code goes on
        with an address that it never set. */
    method Restart() returns (located: bool)
      requires Valid()
      modifies this`cur, this`lastTime, this`oldest, this`rollover
      ensures located <==> old(cur).status != STORE_FULL
      ensures !located ==> used == |sectors|
      ensures located ==> Valid() && rollover && All() == old(All())
      ensures located ==> oldest == old(oldest) && lastTime == old(lastTime)
      ensures located ==>
                if used > 0 then cur == old(cur) else cur == old(cur).(endTime := cur.endTime, endIdx := cur.endIdx)
    {
      CurrentUse();
      hide SectorInv; hide RingInv; hide Ring; hide Bottom; hide SectorAt; hide Flat; hide LastTime; hide IdxOff;
      var current, first := LocateSectors();
      located := current.Some?;
      rollover := true;
      if !located {
        return;
      }
      oldest := first;
      cur := ReadSectorInfo(current.value.sec, true, current.value);
      lastTime := 0;
      if cur.status == STORE_USING {
        lastTime := cur.endTime;
      } else if cur.status == STORE_EMPTY && oldest != cur.sec {
        assert false;  // only a power cut inside an append leaves an empty current sector behind full ones
      }
    }
  }

  lemma FreshRing(sectors: seq<TsSector>, secSize: nat)
    requires TS_HDR <= secSize && forall s :: 0 <= s < |sectors| ==> sectors[s] == Blank(secSize)
    ensures Ring(sectors, 0) == sectors && RingInv(sectors, 0, secSize) && Flat(sectors) == []
  {
    BlankOk(secSize);
    assert RingInv(sectors, 0, secSize);
    EmptyRest(sectors, 0, secSize, 0);
    assert sectors[0..] == sectors;
  }

  const NOTHING_READ := SecInfo(0, STORE_UNUSED, 0, 0, 0, false, false, 0, 0, 0)

  /** The status of sector `s`, when `c` is the current one. */
  lemma Kind(sectors: seq<TsSector>, oldest: nat, used: nat, secSize: nat, c: nat, s: nat)
    requires oldest < |sectors| && RingInv(Ring(sectors, oldest), used, secSize) && (used < |sectors| ==> oldest == 0)
    requires s < |sectors| && c == SectorAt(oldest, if used == 0 then 0 else used - 1, |sectors|)
    ensures SectorInv(sectors[s], secSize)
    ensures used == 0 <==> sectors[c].store == STORE_EMPTY
    ensures sectors[s].store == if used > 0 && s == c then sectors[c].store
                                else if used < |sectors| && s >= used then STORE_EMPTY else STORE_FULL
    ensures (sectors[s].store == STORE_EMPTY ==> sectors[s].idx == [])
  {
    EachSector(sectors, oldest, used, secSize, s);
    EachSector(sectors, oldest, used, secSize, c);
    RingIndex(sectors, oldest, StepOf(oldest, s, |sectors|));
  }

  lemma CurrentKind(sectors: seq<TsSector>, oldest: nat, used: nat, secSize: nat, c: nat)
    requires oldest < |sectors| && RingInv(Ring(sectors, oldest), used, secSize) && (used < |sectors| ==> oldest == 0)
    requires c == SectorAt(oldest, if used == 0 then 0 else used - 1, |sectors|)
    ensures used < |sectors| ==> c == if used == 0 then 0 else used - 1
    ensures used == 0 ==> sectors[c].idx == [] && LastTime(sectors[c]) == 0
  {
    EachSector(sectors, oldest, used, secSize, c);
  }

  lemma OldestBehind(oldest: nat, used: nat, n: nat)
    requires oldest < n && used <= n
    ensures used > 0 && used == n ==> Next(SectorAt(oldest, used - 1, n), n) == oldest
    ensures Next(n - 1, n) == 0 && (used < n ==> used == n - (n - used))
  {
  }

  /** Before anything is written, the current sector is empty. */
  lemma NoneUsed(sectors: seq<TsSector>, oldest: nat, used: nat, secSize: nat)
    requires oldest < |sectors| && RingInv(Ring(sectors, oldest), used, secSize)
    ensures used == 0 ==> forall s :: 0 <= s < |sectors| ==> sectors[s].store == STORE_EMPTY
  {
    forall s | 0 <= s < |sectors| ensures used == 0 ==> sectors[s].store == STORE_EMPTY {
      EachSector(sectors, oldest, used, secSize, s);
    }
  }

  /** Going back in the ring from its first sector leads to an empty one, if there is any. */
  lemma PreviousSlot(sectors: seq<TsSector>, oldest: nat, used: nat, secSize: nat, j: nat)
    requires oldest < |sectors| && RingInv(Ring(sectors, oldest), used, secSize) && (used < |sectors| ==> oldest == 0)
    requires j < |sectors|
    ensures var p := Previous(SectorAt(oldest, j, |sectors|), |sectors|);
            && p < |sectors|
            && if j > 0 then p == SectorAt(oldest, j - 1, |sectors|) else used < |sectors| ==> sectors[p].store == STORE_EMPTY
  {
    EachSector(sectors, oldest, used, secSize, |sectors| - 1);
  }

  /** Only the current sector can be in use. */
  lemma OnlyCurrent(sectors: seq<TsSector>, oldest: nat, used: nat, secSize: nat, s: nat)
    requires oldest < |sectors| && RingInv(Ring(sectors, oldest), used, secSize) && s < |sectors|
    ensures sectors[s].store == STORE_USING ==> used > 0 && s == SectorAt(oldest, used - 1, |sectors|)
  {
    RingIndex(sectors, oldest, StepOf(oldest, s, |sectors|));
  }

  lemma SlotsBefore(x: TsSector, i: nat, from: int)
    requires i <= |x.idx|
    ensures StartForward(x, i, from) ==>
              forall k :: 0 <= k < |x.idx| ==> (x.idx[k].time < from <==> IdxOff(k) < IdxOff(i))
    ensures TS_HDR <= IdxOff(i) <= IdxOff(|x.idx|)
    ensures x.idx != [] ==> IdxOff(|x.idx|) == IdxOff(|x.idx| - 1) + IDX
  {
  }

  lemma OffIs(i: int)
    ensures i >= 0 ==> IdxOff(i) == TS_HDR + i * IDX
    ensures i > 0 ==> IdxOff(i - 1) == IdxOff(i) - IDX
    ensures i >= 0 ==> (IdxOff(i) >= TS_HDR + IDX <==> i > 0)
  {
  }

  lemma OffOrder(i: nat, n: nat)
    requires i < n
    ensures IdxOff(i) + IDX <= IdxOff(n - 1) <==> i + 1 < n
  {
  }

  /** Round up to a multiple of `align`. */
  function Align(size: nat, align: nat): nat
    requires align > 0
  {
    size + align - 1 - (size + align - 1) % align
  }

  function Middle(lo: int, hi: int): int { lo + (hi - lo + 1) / 2 }

  function SlotOff(i: int): int { TS_HDR + i * IDX }

  lemma SlotOffs(i: int, j: int)
    ensures SlotOff(i) <= SlotOff(j) <==> i <= j
    ensures SlotOff(i) + IDX == SlotOff(i + 1) && SlotOff(i) - IDX == SlotOff(i - 1)
    ensures (i >= 0 ==> SlotOff(i) == IdxOff(i)) && (j >= 0 ==> SlotOff(j) == IdxOff(j)) && SlotOff(0) == TS_HDR
  {
  }

  lemma HalfWay(lo: int, hi: int)
    requires lo <= hi
    ensures lo <= Middle(lo, hi) <= hi
    ensures IDX > 0 && (SlotOff(hi) - SlotOff(lo)) / 2 >= 0
    ensures SlotOff(lo) + Align((SlotOff(hi) - SlotOff(lo)) / 2, IDX) == SlotOff(Middle(lo, hi))
  {
  }

  /** Sector `x` after the append of a log at `addr`. */
  function Appended(x: TsSector, payload: seq<bv8>, time: int, addr: nat): TsSector
    requires addr + |payload| <= |x.data|
  {
    WithLog(x.(store := STORE_USING, startTime := if x.store == STORE_EMPTY then time else x.startTime), time, payload, addr)
  }

  /** An append adds one log at the end of the sequence, whether or not it opens a sector. */
  lemma Appending(sectors: seq<TsSector>, oldest: nat, used: nat, secSize: nat, c: nat, payload: seq<bv8>, time: int, addr: nat)
    requires oldest < |sectors| && RingInv(Ring(sectors, oldest), used, secSize) && c < |sectors| && time > 0
    requires sectors[c].store in {STORE_EMPTY, STORE_USING}
    requires addr + |payload| == Bottom(sectors[c].idx, secSize, |sectors[c].idx|) && IdxOff(|sectors[c].idx| + 1) <= addr
    requires sectors[c].store == STORE_USING ==>
               0 < used <= |sectors| && c == SectorAt(oldest, used - 1, |sectors|) && LastTime(sectors[c]) < time
    requires sectors[c].store == STORE_EMPTY ==> used < |sectors| && c == SectorAt(oldest, used, |sectors|)
    requires sectors[c].store == STORE_EMPTY && used > 0 ==>
               var last := Ring(sectors, oldest)[used - 1]; last.store == STORE_FULL && LastTime(last) < time
    ensures SectorInv(sectors[c], secSize) && |sectors[c].data| == secSize >= addr + |payload|
    ensures sectors[c].store == STORE_EMPTY ==> sectors[c].idx == []
    ensures forall o :: IdxOff(|sectors[c].idx|) <= o < addr + |payload| ==> sectors[c].data[o] == ERASED_BYTE
    ensures var t := sectors[c := Appended(sectors[c], payload, time, addr)];
            var u := if sectors[c].store == STORE_EMPTY then used + 1 else used;
            && RingInv(Ring(t, oldest), u, secSize) && Bottom(t[c].idx, secSize, |t[c].idx|) == addr
            && Flat(Ring(t, oldest)) == Flat(Ring(sectors, oldest)) + [Log(TSL_WRITE, time, payload)]
  {
    hide RingInv; hide Flat; hide Bottom;
    EachSector(sectors, oldest, used, secSize, c);
    var x, log := sectors[c], Log(TSL_WRITE, time, payload);
    var y := Appended(x, payload, time, addr);
    InvAppended(x, secSize, time, payload, addr, if x.idx == [] then time else x.startTime);
    LogsAppended(x, secSize, time, payload, addr);
    assert y == WithLog(x, time, payload, addr).(store := STORE_USING, startTime := y.startTime);
    SameLogs(y, WithLog(x, time, payload, addr));
    var j := if x.store == STORE_EMPTY then used else used - 1;
    RingIndex(sectors, oldest, j);
    RingUpdate(sectors, oldest, j, y);
    hide SectorInv; hide Logs;
    if x.store == STORE_EMPTY {
      NoLogs(x);
      RingOpen(Ring(sectors, oldest), used, secSize, y, log);
    } else {
      RingExtend(Ring(sectors, oldest), used, secSize, y, log);
    }
  }

  lemma LogsOfTwo(r: seq<TsSector>, secSize: nat)
    requires |r| == 2 && RingInv(r, 1, secSize)
    ensures Flat(r) == Logs(r[0]) && SectorInv(r[0], secSize)
  {
    assert r[..1] == [r[0]];
    FlatOne(r[0]);
    assert Logs(r[1]) == [];
  }

  lemma SameLogs(x: TsSector, y: TsSector)
    requires x.idx == y.idx && x.data == y.data
    ensures Logs(x) == Logs(y)
  {
  }

  function Closed(sectors: seq<TsSector>, c: nat): seq<TsSector>
    requires c < |sectors|
  {
    if sectors[c].idx == [] then sectors else sectors[c := Filled(sectors[c])]
  }

  lemma EachSector(sectors: seq<TsSector>, oldest: nat, used: nat, secSize: nat, s: nat)
    requires oldest < |sectors| && RingInv(Ring(sectors, oldest), used, secSize) && s < |sectors|
    ensures SectorInv(sectors[s], secSize) && used <= |sectors|
    ensures sectors[s].store == STORE_EMPTY <==> StepOf(oldest, s, |sectors|) >= used
  {
    RingIndex(sectors, oldest, StepOf(oldest, s, |sectors|));
  }

  lemma UsingUsed(sectors: seq<TsSector>, oldest: nat, used: nat, secSize: nat, c: nat)
    requires oldest < |sectors| && RingInv(Ring(sectors, oldest), used, secSize)
    requires c == SectorAt(oldest, if used == 0 then 0 else used - 1, |sectors|) && sectors[c].store == STORE_USING
    ensures 0 < used <= |sectors| && Ring(sectors, oldest)[used - 1] == sectors[c] && sectors[c].idx != []
  {
    EachSector(sectors, oldest, used, secSize, c);
    RingIndex(sectors, oldest, used - 1);
  }

  lemma CurrentUsing(sectors: seq<TsSector>, oldest: nat, used: nat, secSize: nat, c: nat)
    requires oldest < |sectors| && RingInv(Ring(sectors, oldest), used, secSize)
    requires c == SectorAt(oldest, if used == 0 then 0 else used - 1, |sectors|) && sectors[c].store == STORE_USING
    ensures used > 0 && SectorInv(sectors[c], secSize) && sectors[c].idx != []
  {
    EachSector(sectors, oldest, used, secSize, c);
  }

  lemma Closing(sectors: seq<TsSector>, oldest: nat, used: nat, secSize: nat, c: nat)
    requires oldest < |sectors| && RingInv(Ring(sectors, oldest), used, secSize) && 0 < used <= |sectors|
    requires c == SectorAt(oldest, used - 1, |sectors|) && sectors[c].store == STORE_USING
    ensures var t := Closed(sectors, c);
            && |Ring(t, oldest)| == |sectors| == |t|
            && RingInv(Ring(t, oldest), used, secSize) && Flat(Ring(t, oldest)) == Flat(Ring(sectors, oldest))
            && Ring(t, oldest)[used - 1] == t[c]
            && t[c].store == STORE_FULL && t[c].idx == sectors[c].idx != [] && t[c].startTime == sectors[c].startTime
            && (forall s :: 0 <= s < |t| && s != c ==> t[s] == sectors[s])
  {
    hide RingInv; hide Flat; hide Logs; hide SectorInv;
    CurrentUsing(sectors, oldest, used, secSize, c);
    RingIndex(sectors, oldest, used - 1);
    RingFill(Ring(sectors, oldest), used, secSize);
    RingUpdate(sectors, oldest, used - 1, Filled(sectors[c]));
  }

  lemma Dropping(t: seq<TsSector>, oldest: nat, secSize: nat)
    requires oldest < |t| && RingInv(Ring(t, oldest), |t|, secSize) && |t| >= 2 && TS_HDR <= secSize
    requires |Ring(t, oldest)| == |t| && Ring(t, oldest)[|t| - 1].store == STORE_FULL
    ensures var q := Ring(t[oldest := Blank(secSize)], Next(oldest, |t|));
            && |q| == |t| && RingInv(q, |t| - 1, secSize) && q[|t| - 2] == Ring(t, oldest)[|t| - 1]
            && |Logs(t[oldest])| <= |Flat(Ring(t, oldest))|
            && Flat(q) == Flat(Ring(t, oldest))[|Logs(t[oldest])|..]
  {
    hide RingInv; hide Flat; hide Logs; hide Blank;
    var b := t[oldest := Blank(secSize)];
    RingIndex(t, oldest, 0);
    RingDrop(Ring(t, oldest), |t|, secSize);
    RingRotate(b, oldest);
    RingUpdate(t, oldest, 0, Blank(secSize));
  }

  /** Rollover switched off after the ring has wrapped once: the next append that changes the sector still gives up the
      logs of the oldest one. */
  method RolloverOffDropsLogs(payload: seq<bv8>) returns (db: TsDatabase, ghost before: seq<Log>)
    requires |payload| == 72
    ensures fresh(db) && db.Valid() && !db.rollover && !(before <= db.All()) && db.All() != []
    ensures before != [] && before[|before| - 1] == Log(TSL_WRITE, 3, payload)
    ensures db.All()[|db.All()| - 1] == Log(TSL_WRITE, 4, payload)
  {
    hide RingInv; hide Flat; hide Logs; hide Ring; hide SectorInv;
    db := new TsDatabase(128, 72, 2);
    var err := db.Append(payload, 1);
    err := db.Append(payload, 2);
    err := db.Append(payload, 3);
    db.SetRollover(false);
    before := db.All();
    err := db.Append(payload, 4);
  }

  /** The only log fills its sector to the last byte.  A query back in time misses it if its first byte is that of a log
      that is being written; had it been an erased byte, the log would have been found. */
  method ExactFitMisses(payload: seq<bv8>, beyond: seq<seq<bv8>>) returns (db: TsDatabase, visited: seq<Log>)
    requires |payload| == 72 && |beyond| == 2
    ensures fresh(db) && db.Valid() && db.All() == [Log(TSL_WRITE, 5, payload)]
    ensures payload[0] == 0x7F ==> visited == []
    ensures payload[0] == ERASED_BYTE ==> visited == [Log(TSL_WRITE, 5, payload)]
  {
    hide *;
    db := FilledByOne(payload);
    var never := (v: seq<Log>) => false;
    visited := db.IterByTime(9, 1, never, beyond);
    db.RingFacts();
    db.OneSector(payload, beyond);
    NeverStops(visited, Fed(Ring(db.sectors, db.oldest), db.Tails(beyond), db.used, 9, 1), never);
  }

  method FilledByOne(payload: seq<bv8>) returns (db: TsDatabase)
    requires |payload| == 72
    ensures fresh(db) && db.Valid() && db.All() == [Log(TSL_WRITE, 5, payload)]
    ensures db.secSize == 128 && |db.sectors| == 2 && db.used == 1
  {
    hide RingInv; hide Flat; hide Logs; hide Ring; hide SectorInv;
    db := new TsDatabase(128, 72, 2);
    var err := db.Append(payload, 5);
  }
}
