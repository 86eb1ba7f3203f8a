/**
 What a query delivers to its callback.  A query from a later to an earlier time searches each sector for
 its starting point and may look at the slot behind the last index; the module says what comes out then.
 */
module TsQuery {
  import opened FdbDef
  import opened LittleEndian
  import opened Status
  import opened TsFlash
  import opened TsRing

  function FirstTime(x: TsSector): int { if x.idx == [] then 0 else x.idx[0].time }

  function TslOf(rank: nat): TslStatus {
    if rank == 0 then TSL_UNUSED else if rank == 1 then TSL_PRE_WRITE else if rank == 2 then TSL_WRITE
    else if rank == 3 then TSL_USER_STATUS1 else if rank == 4 then TSL_DELETED else TSL_USER_STATUS2
  }

  /** A log time is a signed word. */
  function Signed(n: nat): int { if n < 0x8000_0000 then n else n - 0x1_0000_0000 }

  /** What `read_tsl` makes of the bytes of an index slot: a status byte and three words.  Where the data of such a
      log would lie is not looked at. */
  function DecodedSlot(b: seq<bv8>): Log
    requires |b| == IDX
  {
    var status := TslOf(Decoded(b[..1], 5));
    if status in {TSL_UNUSED, TSL_PRE_WRITE} then Log(status, 0, []) else Log(status, Signed(FromLe32(b[4..8])), [])
  }

  /** What reading the slot behind the last index gives.  If it is erased it reads as unused; if the data
      begins right there, it is read as an index.  `beyond` are the bytes behind the sector. */
  function SlotBehind(x: TsSector, secSize: nat, beyond: seq<bv8>): Log {
    var at, all := IdxOff(|x.idx|), x.data + beyond;
    if at < Bottom(x.idx, secSize, |x.idx|) || at + IDX > |all| then Log(TSL_UNUSED, 0, [])
    else DecodedSlot(all[at..at + IDX])
  }

  /** The query takes the slot behind the last index for a log that is not too late. */
  predicate Misread(x: TsSector, t: Log, from: int) {
    LastTime(x) < from && t.status != TSL_UNUSED && t.time <= from
  }

  /** The callback has not asked to stop after any of these calls.  It is told all calls so far. */
  ghost predicate GoesOn(v: seq<Log>, cb: seq<Log> -> bool) { forall k :: 0 < k <= |v| ==> !cb(v[..k]) }

  /** The callback got the logs of `want` one by one, all of them unless it asked to stop. */
  ghost predicate Delivered(v: seq<Log>, want: seq<Log>, cb: seq<Log> -> bool) {
    v <= want && ((v == want && GoesOn(v, cb)) || (v != [] && GoesOn(v[..|v| - 1], cb) && cb(v)))
  }

  /** Once `v` has been delivered, `rest` is what is still to come of `want`. */
  ghost predicate Owes(v: seq<Log>, rest: seq<Log>, want: seq<Log>) { v + rest == want }

  lemma OwesAll(want: seq<Log>)
    ensures Owes([], want, want)
  {
  }

  lemma NothingYet(cb: seq<Log> -> bool)
    ensures GoesOn([], cb)
  {
  }

  lemma PaidOff(v: seq<Log>, want: seq<Log>, cb: seq<Log> -> bool)
    requires Owes(v, [], want) && GoesOn(v, cb)
    ensures Delivered(v, want, cb)
  {
    assert v + [] == v;
  }

  lemma OwesInTurn(v: seq<Log>, first: seq<Log>, rest: seq<Log>, want: seq<Log>)
    requires Owes(v, first + rest, want)
    ensures want == v + first + rest && Owes(v + first, rest, want)
    ensures first == [] ==> Owes(v, rest, want)
  {
    assert v + (first + rest) == v + first + rest;
    assert first == [] ==> v + first == v;
  }

  lemma QuietMore(v: seq<Log>, x: Log, cb: seq<Log> -> bool)
    requires GoesOn(v, cb)
    ensures (v + [x])[..|v|] == v
    ensures !cb(v + [x]) ==> GoesOn(v + [x], cb)
    ensures cb(v + [x]) ==> forall rest :: Delivered(v + [x], v + [x] + rest, cb)
  {
    var w := v + [x];
    forall k | 0 < k <= |w| && !cb(w) ensures !cb(w[..k]) {
      assert k <= |v| ==> w[..k] == v[..k];
      assert k == |w| ==> w[..k] == w;
    }
    assert w[..|w| - 1] == v;
  }

  lemma AllDelivered(v: seq<Log>, cb: seq<Log> -> bool)
    requires GoesOn(v, cb)
    ensures Delivered(v, v, cb)
  {
  }

  /** Splitting the logs of a sector at index `i`. */
  lemma SelectSplit(l: seq<Log>, i: nat, lo: int, hi: int)
    requires i <= |l|
    ensures Select(l, lo, hi) == Select(l[..i], lo, hi) + Select(l[i..], lo, hi)
    ensures i < |l| ==> Select(l[..i + 1], lo, hi) == Select(l[..i], lo, hi) + if lo <= l[i].time <= hi then [l[i]] else []
  {
    assert l == l[..i] + l[i..];
    SelectConcat(l[..i], l[i..], lo, hi);
    if i < |l| {
      assert l[..i + 1][..i] == l[..i];
    }
  }

  /** Slot `i` is where a query forward in time starts in a sector. */
  ghost predicate StartForward(x: TsSector, i: nat, from: int) {
    forall k :: 0 <= k < |x.idx| ==> (x.idx[k].time < from <==> k < i)
  }

  /** Slot `i` is where a query back in time starts, which may be `t`, the one behind the last index. */
  ghost predicate StartBackward(x: TsSector, i: nat, from: int, t: Log) {
    && (i == |x.idx| <==> LastTime(x) < from && t.time <= from)
    && (forall k :: 0 <= k < |x.idx| ==> (x.idx[k].time <= from <==> k <= i))
  }

  /** The binary search has narrowed the start down to the slots from `lo` to `hi + 1`. */
  ghost predicate Bracket(idx: seq<Idx>, lo: int, hi: int, from: int) {
    (forall k :: 0 <= k < lo && k < |idx| ==> idx[k].time < from) && (forall k :: hi < k < |idx| && 0 <= k ==> idx[k].time > from)
  }

  lemma SearchBegin(x: TsSector, secSize: nat, from: int)
    requires SectorInv(x, secSize)
    ensures Increasing(x.idx) && Bracket(x.idx, 0, |x.idx| - 1, from)
  {
  }

  lemma SearchStep(x: TsSector, secSize: nat, lo: int, hi: int, mid: int, from: int, t: Log)
    requires SectorInv(x, secSize) && 0 <= lo <= mid <= hi < |x.idx| && Bracket(x.idx, lo, hi, from)
    ensures SlotAt(x, t, mid).time == x.idx[mid].time
    ensures x.idx[mid].time < from ==> Bracket(x.idx, mid + 1, hi, from)
    ensures x.idx[mid].time > from ==> Bracket(x.idx, lo, mid - 1, from)
    ensures x.idx[mid].time == from ==> StartForward(x, mid, from) && StartBackward(x, mid, from, t)
  {
    assert Increasing(x.idx);
    hide SectorInv;
  }

  lemma SearchEnd(x: TsSector, lo: int, hi: int, from: int, t: Log)
    requires 0 <= lo <= |x.idx| && lo == hi + 1 && Bracket(x.idx, lo, hi, from)
    ensures StartForward(x, lo, from)
    ensures 0 < FirstTime(x) <= from ==>
              if SlotAt(x, t, lo).time > from then lo > 0 && StartBackward(x, lo - 1, from, t) else StartBackward(x, lo, from, t)
  {
  }

  predicate NotBefore(l: seq<Log>, i: nat, from: int) { forall k :: i <= k < |l| ==> l[k].time >= from }

  /** What a query forward in time has delivered once it is past the first `i` logs of a sector. */
  function SoFar(before: seq<Log>, l: seq<Log>, i: nat, from: int, to: int): seq<Log>
    requires i <= |l|
  {
    before + Select(l[..i], from, to)
  }

  lemma SoFarAll(before: seq<Log>, l: seq<Log>, from: int, to: int)
    ensures SoFar(before, l, |l|, from, to) == before + Select(l, from, to)
  {
    assert l[..|l|] == l;
  }

  /** One callback of a query forward in time, at log `i` of a sector. */
  lemma ForwardStep(l: seq<Log>, i: nat, from: int, to: int, cb: seq<Log> -> bool,
                    before: seq<Log>, rest: seq<Log>, visited: seq<Log>)
    requires i < |l| && from <= l[i].time <= to
    requires visited == SoFar(before, l, i, from, to) && GoesOn(visited, cb)
    ensures var more := visited + [l[i]];
            && more == SoFar(before, l, i + 1, from, to)
            && if cb(more) then Delivered(more, before + Select(l, from, to) + rest, cb) else GoesOn(more, cb)
  {
    hide GoesOn; hide Delivered; hide Select;
    SelectSplit(l, i, from, to);
    var more := visited + [l[i]];
    QuietMore(visited, l[i], cb);
    SelectSplit(l, i + 1, from, to);
    assert more + (Select(l[i + 1..], from, to) + rest) == before + Select(l, from, to) + rest;
  }

  /** A query forward in time ends at the first log that is too late. */
  lemma ForwardEnd(l: seq<Log>, i: nat, from: int, to: int, cb: seq<Log> -> bool,
                   before: seq<Log>, rest: seq<Log>, visited: seq<Log>)
    requires Sorted(l) && i < |l| && l[i].time > to && (l[|l| - 1].time > to ==> rest == [])
    requires visited == SoFar(before, l, i, from, to) && GoesOn(visited, cb)
    ensures Delivered(visited, before + Select(l, from, to) + rest, cb)
  {
    SelectNone(l[i..], from, to);
    hide GoesOn; hide Delivered; hide Select;
    SelectSplit(l, i, from, to);
    AllDelivered(visited, cb);
    assert before + Select(l, from, to) + rest == visited;
  }

  /** The binary search skips only logs that are too old. */
  lemma SkipOld(x: TsSector, secSize: nat, i: nat, from: int, to: int, before: seq<Log>)
    requires SectorInv(x, secSize) && i <= |x.idx| && x.idx != []
    requires StartForward(x, i, from)
    ensures |Logs(x)| == |x.idx| && SoFar(before, Logs(x), i, from, to) == before
    ensures NotBefore(Logs(x), i, from)
    ensures LastTime(x) >= from ==> i < |x.idx|
  {
    SectorTimes(x, secSize);
    SelectNone(Logs(x)[..i], from, to);
  }

  predicate NotAfter(l: seq<Log>, i: nat, from: int) { forall k :: 0 <= k <= i && k < |l| ==> l[k].time <= from }

  /** What a query back in time has delivered once it is past log `i` of a sector. */
  function BackFar(head: seq<Log>, l: seq<Log>, i: nat, from: int, to: int): seq<Log>
    requires i <= |l|
  {
    head + Rev(Select(l[i..], to, from))
  }

  lemma BackFarEnds(head: seq<Log>, l: seq<Log>, from: int, to: int)
    ensures BackFar(head, l, |l|, from, to) == head
    ensures BackFar(head, l, 0, from, to) == head + Rev(Select(l, to, from))
  {
    assert l[0..] == l && l[|l|..] == [];
  }

  lemma RevSplit(l: seq<Log>, i: nat, from: int, to: int)
    requires i < |l|
    ensures Rev(Select(l, to, from)) == Rev(Select(l[i..], to, from)) + Rev(Select(l[..i], to, from))
    ensures Rev(Select(l[i..], to, from))
            == Rev(Select(l[i + 1..], to, from)) + if to <= l[i].time <= from then [l[i]] else []
  {
    hide Select; hide Rev;
    SelectSplit(l, i, to, from);
    RevConcat(Select(l[..i], to, from), Select(l[i..], to, from));
    var one := if to <= l[i].time <= from then [l[i]] else [];
    assert l[i..] == [l[i]] + l[i + 1..];
    SelectConcat([l[i]], l[i + 1..], to, from);
    SelectOne(l[i], to, from);
    RevConcat(one, Select(l[i + 1..], to, from));
    if one != [] {
      RevOne(l[i]);
    } else {
      RevMember(one);
    }
  }

  lemma SelectOne(x: Log, lo: int, hi: int)
    ensures Select([x], lo, hi) == if lo <= x.time <= hi then [x] else []
  {
    assert [x][..0] == [];
  }

  lemma BackwardStep(l: seq<Log>, i: nat, from: int, to: int, cb: seq<Log> -> bool,
                     head: seq<Log>, rest: seq<Log>, visited: seq<Log>)
    requires i < |l| && to <= l[i].time <= from
    requires visited == BackFar(head, l, i + 1, from, to) && GoesOn(visited, cb)
    ensures var more := visited + [l[i]];
            && more == BackFar(head, l, i, from, to)
            && if cb(more) then Delivered(more, head + Rev(Select(l, to, from)) + rest, cb) else GoesOn(more, cb)
  {
    hide GoesOn; hide Delivered; hide Select; hide Rev;
    RevSplit(l, i, from, to);
    var more := visited + [l[i]];
    QuietMore(visited, l[i], cb);
    assert more + (Rev(Select(l[..i], to, from)) + rest) == head + Rev(Select(l, to, from)) + rest;
  }

  lemma BackwardEnd(l: seq<Log>, i: nat, from: int, to: int, cb: seq<Log> -> bool,
                    head: seq<Log>, rest: seq<Log>, visited: seq<Log>)
    requires Sorted(l) && i < |l| && l[i].time < to && (l[0].time < to ==> rest == [])
    requires visited == BackFar(head, l, i + 1, from, to) && GoesOn(visited, cb)
    ensures Delivered(visited, head + Rev(Select(l, to, from)) + rest, cb)
  {
    hide GoesOn; hide Delivered; hide Select; hide Rev; hide Sorted;
    NoneBelow(l, i, from, to);
    RevSplit(l, i, from, to);
    AllDelivered(visited, cb);
    assert Rev(Select(l, to, from)) == Rev(Select(l[i + 1..], to, from));
    assert visited + [] == visited;
  }

  lemma NoneBelow(l: seq<Log>, i: nat, from: int, to: int)
    requires Sorted(l) && i < |l| && l[i].time < to
    ensures Rev(Select(l[..i], to, from)) == [] && l[0].time < to
  {
    SelectNone(l[..i], to, from);
    RevMember(Select(l[..i], to, from));
  }

  /** A query back in time has come to slot `i` of a sector, which may be `t`, the one behind the last index. */
  ghost predicate AtSlot(x: TsSector, t: Log, i: nat, from: int, to: int, before: seq<Log>, visited: seq<Log>) {
    && i <= |x.idx| == |Logs(x)| && NotAfter(Logs(x), i, from)
    && if i == |x.idx| then visited == before && LastTime(x) < from && t.time <= from
       else visited == BackFar(Head(x, t, from, before), Logs(x), i + 1, from, to) && !(Misread(x, t, from) && t.time < to)
  }

  function Head(x: TsSector, t: Log, from: int, before: seq<Log>): seq<Log> {
    if Misread(x, t, from) then before + [t] else before
  }

  /** Where a query back in time starts, nothing later in the sector is in range. */
  lemma SkipNew(x: TsSector, secSize: nat, i: nat, from: int, to: int, before: seq<Log>, t: Log)
    requires SectorInv(x, secSize) && i <= |x.idx| && x.idx != []
    requires StartBackward(x, i, from, t) && FirstTime(x) <= from
    ensures AtSlot(x, t, i, from, to, before, before)
  {
    SectorTimes(x, secSize);
    if i < |x.idx| {
      SelectNone(Logs(x)[i + 1..], to, from);
      RevMember(Select(Logs(x)[i + 1..], to, from));
    }
  }

  /** After the call for slot `i`, the query is at the slot below, or through with the sector. */
  ghost predicate PastSlot(x: TsSector, t: Log, i: nat, from: int, to: int, before: seq<Log>, rest: seq<Log>, visited: seq<Log>) {
    if i > 0 then AtSlot(x, t, i - 1, from, to, before, visited)
    else Owes(visited, rest, FedOne(x, t, from, to, before, rest)) && FirstTime(x) >= to
  }

  lemma PastIs(x: TsSector, t: Log, i: nat, from: int, to: int, before: seq<Log>, rest: seq<Log>, visited: seq<Log>)
    requires PastSlot(x, t, i, from, to, before, rest, visited)
    ensures if i > 0 then AtSlot(x, t, i - 1, from, to, before, visited)
            else Owes(visited, rest, FedOne(x, t, from, to, before, rest)) && FirstTime(x) >= to
  {
  }

  function SlotAt(x: TsSector, t: Log, i: nat): Log { if i < |x.idx| then LogAt(x, i) else t }

  lemma SlotDone(x: TsSector, secSize: nat, t: Log, i: nat, from: int, to: int, before: seq<Log>, rest: seq<Log>, visited: seq<Log>)
    requires SectorInv(x, secSize) && i <= |x.idx| == |Logs(x)| && x.idx != [] && NotAfter(Logs(x), i, from)
    requires !(Misread(x, t, from) && t.time < to) && (i == 0 ==> FirstTime(x) >= to)
    requires visited == BackFar(Head(x, t, from, before), Logs(x), i, from, to)
    ensures PastSlot(x, t, i, from, to, before, rest, visited)
  {
    hide SectorInv; hide Logs; hide BackFar; hide Select; hide Rev;
    BackFarEnds(Head(x, t, from, before), Logs(x), from, to);
  }

  /** The call for a written slot. */
  lemma WrittenCall(x: TsSector, secSize: nat, t: Log, i: nat, from: int, to: int, cb: seq<Log> -> bool,
                    before: seq<Log>, rest: seq<Log>, visited: seq<Log>)
    requires SectorInv(x, secSize) && i < |x.idx| && from > to && (FirstTime(x) < to ==> rest == [])
    requires AtSlot(x, t, i, from, to, before, visited) && GoesOn(visited, cb)
    ensures CallResult(x, t, i, from, to, cb, before, rest, visited)
  {
    var l, head := Logs(x), Head(x, t, from, before);
    SectorTimes(x, secSize);
    Written(x, secSize, i);
    Earlier(l, i, from);
    hide SectorInv; hide Logs; hide LogAt; hide GoesOn; hide Delivered; hide Rev; hide Select; hide BackFar; hide NotAfter; hide Sorted;
    hide Misread;
    if l[i].time >= to {
      BackwardStep(l, i, from, to, cb, head, rest, visited);
      NotAfterDown(l, i, from);
      SlotDone(x, secSize, t, i, from, to, before, rest, visited + [l[i]]);
    } else {
      BackwardEnd(l, i, from, to, cb, head, rest, visited);
    }
  }

  /** The call for the slot behind the last index. */
  lemma BehindCall(x: TsSector, secSize: nat, t: Log, from: int, to: int, cb: seq<Log> -> bool,
                   before: seq<Log>, rest: seq<Log>, visited: seq<Log>)
    requires SectorInv(x, secSize) && x.idx != [] && from > to
    requires AtSlot(x, t, |x.idx|, from, to, before, visited) && GoesOn(visited, cb)
    ensures CallResult(x, t, |x.idx|, from, to, cb, before, rest, visited)
  {
    var l, more := Logs(x), Rev(Select(Logs(x), to, from));
    BackFarEnds(Head(x, t, from, before), l, from, to);
    hide SectorInv; hide Logs; hide LogAt; hide GoesOn; hide Delivered; hide Rev; hide Select; hide BackFar;
    if t.status == TSL_UNUSED || t.time >= to {
      SlotDone(x, secSize, t, |x.idx|, from, to, before, rest, Head(x, t, from, before));
      QuietMore(visited, t, cb);
      assert visited + [t] + (more + rest) == visited + [t] + more + rest;
    } else {
      AllDelivered(visited, cb);
    }
  }

  lemma Earlier(l: seq<Log>, i: nat, from: int)
    requires NotAfter(l, i, from) && i < |l|
    ensures l[i].time <= from
  {
  }

  lemma Written(x: TsSector, secSize: nat, i: nat)
    requires SectorInv(x, secSize) && i < |x.idx|
    ensures |Logs(x)| == |x.idx| && Logs(x)[i] == LogAt(x, i) && LogAt(x, i).status != TSL_UNUSED
    ensures Logs(x)[0].time == FirstTime(x)
  {
  }

  lemma NotAfterDown(l: seq<Log>, i: nat, from: int)
    requires NotAfter(l, i, from)
    ensures NotAfter(l, if i > 0 then i - 1 else 0, from)
  {
  }

  /** What the callback for slot `i` leads to. */
  ghost predicate CallResult(x: TsSector, t: Log, i: nat, from: int, to: int, cb: seq<Log> -> bool,
                             before: seq<Log>, rest: seq<Log>, visited: seq<Log>)
  {
    var log := SlotAt(x, t, i);
    var want := FedOne(x, t, from, to, before, rest);
    if log.status == TSL_UNUSED then PastSlot(x, t, i, from, to, before, rest, visited)
    else if to <= log.time <= from then
      var more := visited + [log];
      if cb(more) then Delivered(more, want, cb) else GoesOn(more, cb) && PastSlot(x, t, i, from, to, before, rest, more)
    else Delivered(visited, want, cb)
  }

  /** The call for a slot, written or not. */
  lemma SlotCall(x: TsSector, secSize: nat, t: Log, i: nat, from: int, to: int, cb: seq<Log> -> bool,
                 before: seq<Log>, rest: seq<Log>, visited: seq<Log>)
    requires SectorInv(x, secSize) && i <= |x.idx| && x.idx != [] && from > to && (FirstTime(x) < to ==> rest == [])
    requires AtSlot(x, t, i, from, to, before, visited) && GoesOn(visited, cb)
    ensures var log := SlotAt(x, t, i); var want := FedOne(x, t, from, to, before, rest);
            if log.status == TSL_UNUSED then PastSlot(x, t, i, from, to, before, rest, visited)
            else if to <= log.time <= from then
              var more := visited + [log];
              if cb(more) then Delivered(more, want, cb) else GoesOn(more, cb) && PastSlot(x, t, i, from, to, before, rest, more)
            else Delivered(visited, want, cb)
  {
    if i < |x.idx| {
      WrittenCall(x, secSize, t, i, from, to, cb, before, rest, visited);
    } else {
      BehindCall(x, secSize, t, from, to, cb, before, rest, visited);
    }
    hide SectorInv; hide AtSlot; hide SlotAt; hide FedOne; hide PastSlot; hide Delivered; hide GoesOn;
  }

  lemma Later(l: seq<Log>, i: nat, from: int)
    requires NotBefore(l, i, from) && i < |l|
    ensures l[i].time >= from && NotBefore(l, i + 1, from)
  {
  }

  lemma LogsAt(x: TsSector, t: Log, i: nat)
    requires i < |x.idx|
    ensures |Logs(x)| == |x.idx| && Logs(x)[i] == SlotAt(x, t, i)
  {
  }

  /** What a query back in time delivers from the first `k` sectors, with `q` behind their last indexes. */
  function Fed(r: seq<TsSector>, q: seq<Log>, k: nat, from: int, to: int): seq<Log>
    requires k <= |r| == |q|
  {
    if k == 0 then []
    else
      var x, t := r[k - 1], q[k - 1];
      if Misread(x, t, from) && t.time < to then []
      else
        (if Misread(x, t, from) then [t] else [])
        + Rev(Select(Logs(x), to, from))
        + if FirstTime(x) < to then [] else Fed(r, q, k - 1, from, to)
  }

  /** The same for a single sector: `before` has been delivered, and `rest` comes from the sectors below. */
  function FedOne(x: TsSector, t: Log, from: int, to: int, before: seq<Log>, rest: seq<Log>): seq<Log> {
    if Misread(x, t, from) && t.time < to then before
    else (if Misread(x, t, from) then before + [t] else before) + Rev(Select(Logs(x), to, from)) + rest
  }

  /** Sector `j` is reached by the query and misread where that matters. */
  predicate Spoils(r: seq<TsSector>, q: seq<Log>, used: nat, j: nat, from: int, to: int)
    requires j < used <= |r| == |q|
  {
    && (j + 1 < used ==> FirstTime(r[j + 1]) >= to)
    && Misread(r[j], q[j], from)
    && (q[j].time >= to || LastTime(r[j]) >= to)
  }

  lemma {:induction false} RevMember(s: seq<Log>)
    ensures |Rev(s)| == |s|
    ensures forall i :: 0 <= i < |s| ==> Rev(s)[i] == s[|s| - 1 - i]
  {
    if s != [] {
      var n, init := |s| - 1, s[..|s| - 1];
      RevMember(init);
      assert Rev(s) == [s[n]] + Rev(init);
      hide Rev;
      forall i | 0 <= i < |s| ensures Rev(s)[i] == s[n - i] {
        assert i > 0 ==> Rev(s)[i] == Rev(init)[i - 1] && Rev(init)[i - 1] == init[n - 1 - (i - 1)];
      }
    }
  }

  lemma FlatTop(r: seq<TsSector>, k: nat)
    requires 0 < k <= |r|
    ensures Flat(r[..k]) == Flat(r[..k - 1]) + Logs(r[k - 1])
  {
    FlatAt(r, k - 1);
  }

  /** What a query back in time ought to deliver from the first `k` sectors. */
  function Want(r: seq<TsSector>, k: nat, from: int, to: int): seq<Log>
    requires k <= |r|
  {
    Rev(Select(Flat(r[..k]), to, from))
  }

  lemma WantTop(r: seq<TsSector>, k: nat, from: int, to: int)
    requires 0 < k <= |r|
    ensures Want(r, k, from, to) == Rev(Select(Logs(r[k - 1]), to, from)) + Want(r, k - 1, from, to)
  {
    hide Flat; hide Logs;
    FlatTop(r, k);
    SelectConcat(Flat(r[..k - 1]), Logs(r[k - 1]), to, from);
    RevConcat(Select(Flat(r[..k - 1]), to, from), Select(Logs(r[k - 1]), to, from));
  }

  /** Everything in a ring prefix is older than `to` when the sector on top is. */
  lemma NothingLeft(r: seq<TsSector>, used: nat, secSize: nat, k: nat, from: int, to: int)
    requires RingInv(r, used, secSize) && k <= used
    requires k < used && FirstTime(r[k]) < to
    ensures Want(r, k, from, to) == []
  {
    hide Flat; hide Logs;
    RingBefore(r, used, secSize, k, k);
    SelectNone(Flat(r[..k]), to, from);
  }

  lemma NothingIn(r: seq<TsSector>, used: nat, secSize: nat, k: nat, from: int, to: int)
    requires RingInv(r, used, secSize) && 0 < k <= used && LastTime(r[k - 1]) < to
    ensures Want(r, k, from, to) == [] && FirstTime(r[k - 1]) < to
  {
    UsedSector(r, used, secSize, k - 1);
    SectorTimes(r[k - 1], secSize);
    hide Flat; hide SectorInv; hide Logs; hide Want; hide RingInv;
    NothingLeft(r, used, secSize, k - 1, from, to);
    WantTop(r, k, from, to);
    SelectNone(Logs(r[k - 1]), to, from);
  }

  /** The last log of a sector is in range. */
  lemma LastIn(r: seq<TsSector>, used: nat, secSize: nat, k: nat, from: int, to: int)
    requires RingInv(r, used, secSize) && 0 < k <= used && to <= LastTime(r[k - 1]) <= from
    ensures |Select(Logs(r[k - 1]), to, from)| > 0
    ensures Rev(Select(Logs(r[k - 1]), to, from))[0].time == LastTime(r[k - 1])
  {
    UsedSector(r, used, secSize, k - 1);
    SectorTimes(r[k - 1], secSize);
    var l := Logs(r[k - 1]);
    assert l[|l| - 1].time == LastTime(r[k - 1]);
    RevMember(Select(l, to, from));
  }

  lemma FirstsGrow(r: seq<TsSector>, used: nat, secSize: nat, j: nat, k: nat)
    requires RingInv(r, used, secSize) && j <= k < used
    ensures FirstTime(r[j]) <= FirstTime(r[k])
  {
    hide SectorInv; hide Logs;
    UsedSector(r, used, secSize, j);
    UsedSector(r, used, secSize, k);
    SectorTimes(r[j], secSize);
  }

  /** No sector further down is reached once a sector begins before the end of the query. */
  lemma Unreached(r: seq<TsSector>, q: seq<Log>, used: nat, secSize: nat, k: nat, from: int, to: int)
    requires RingInv(r, used, secSize) && k < used && |r| == |q| && FirstTime(r[k]) < to
    ensures forall j :: 0 <= j < k ==> !Spoils(r, q, used, j, from, to)
  {
    assert used <= |r|;
    hide RingInv;
    forall j | 0 <= j < k ensures !Spoils(r, q, used, j, from, to) {
      FirstsGrow(r, used, secSize, j + 1, k);
    }
  }

  lemma RepeatedHead(w: seq<Log>, t: Log, rest: seq<Log>)
    requires forall i :: 0 < i < |w| ==> w[i].time < w[0].time
    requires w != [] && rest != [] && rest[0] == w[0]
    ensures [t] + rest != w
  {
    assert ([t] + rest)[1] == w[0];
  }

  lemma PhantomFirst(w: seq<Log>, t: Log, first: seq<Log>, rest: seq<Log>)
    requires forall i :: 0 < i < |w| ==> w[i].time < w[0].time
    requires w != [] && first != [] && first[0] == w[0]
    ensures [t] + first + rest != w
  {
    assert [t] + first + rest == [t] + (first + rest);
    RepeatedHead(w, t, first + rest);
  }

  lemma WantFalls(r: seq<TsSector>, used: nat, secSize: nat, k: nat, from: int, to: int)
    requires RingInv(r, used, secSize) && k <= used
    ensures var w := Want(r, k, from, to); forall i :: 0 < i < |w| ==> w[i].time < w[0].time
  {
    hide Flat;
    RingSorted(r, used, secSize, k);
    SelectExact(Flat(r[..k]), to, from);
    RevMember(Select(Flat(r[..k]), to, from));
  }

  /** A slot taken for a log in range is always noticed: the answer then differs from the right one. */
  lemma PhantomShows(r: seq<TsSector>, q: seq<Log>, used: nat, secSize: nat, k: nat, from: int, to: int)
    requires RingInv(r, used, secSize) && 0 < k <= used <= |r| && |r| == |q|
    requires Misread(r[k - 1], q[k - 1], from) && q[k - 1].time >= to
    ensures Fed(r, q, k, from, to) != Want(r, k, from, to)
  {
    hide Logs; hide RingInv; hide SectorInv; hide Select; hide Rev; hide Want;
    var x, t := r[k - 1], q[k - 1];
    var first := Rev(Select(Logs(x), to, from));
    var rest := if FirstTime(x) < to then [] else Fed(r, q, k - 1, from, to);
    assert Fed(r, q, k, from, to) == [t] + first + rest;
    if LastTime(x) < to {
      NothingIn(r, used, secSize, k, from, to);
    } else {
      LastIn(r, used, secSize, k, from, to);
      RevMember(Select(Logs(x), to, from));
      WantTop(r, k, from, to);
      WantFalls(r, used, secSize, k, from, to);
      PhantomFirst(Want(r, k, from, to), t, first, rest);
    }
  }

  /** One sector of the query, when nothing behind its last index is taken for a log. */
  lemma FedStep(r: seq<TsSector>, q: seq<Log>, used: nat, secSize: nat, k: nat, from: int, to: int)
    requires RingInv(r, used, secSize) && 0 < k <= used <= |r| && |r| == |q|
    requires !Misread(r[k - 1], q[k - 1], from)
    ensures FirstTime(r[k - 1]) < to ==> Fed(r, q, k, from, to) == Want(r, k, from, to)
    ensures FirstTime(r[k - 1]) >= to ==>
              (Fed(r, q, k, from, to) == Want(r, k, from, to) <==> Fed(r, q, k - 1, from, to) == Want(r, k - 1, from, to))
  {
    hide *;
    var first := Rev(Select(Logs(r[k - 1]), to, from));
    WantTop(r, k, from, to);
    FedUnspoilt(r, q, k, from, to);
    if FirstTime(r[k - 1]) < to {
      NothingLeft(r, used, secSize, k - 1, from, to);
    } else {
      SamePrefix(first, Fed(r, q, k - 1, from, to), Want(r, k - 1, from, to));
    }
  }

  lemma FedUnspoilt(r: seq<TsSector>, q: seq<Log>, k: nat, from: int, to: int)
    requires 0 < k <= |r| && |r| == |q| && !Misread(r[k - 1], q[k - 1], from)
    ensures Fed(r, q, k, from, to)
            == Rev(Select(Logs(r[k - 1]), to, from)) + if FirstTime(r[k - 1]) < to then [] else Fed(r, q, k - 1, from, to)
  {
    hide Logs; hide Select; hide Rev; hide Misread; hide FirstTime;
    assert [] + Rev(Select(Logs(r[k - 1]), to, from)) == Rev(Select(Logs(r[k - 1]), to, from));
  }

  lemma SamePrefix(p: seq<Log>, s: seq<Log>, t: seq<Log>)
    ensures p + s == p + t <==> s == t
  {
    if p + s == p + t {
      assert s == (p + s)[|p|..] && t == (p + t)[|p|..];
    }
  }

  /** The query ends at a slot that it takes for a log before its end. */
  lemma StopsEarly(r: seq<TsSector>, q: seq<Log>, used: nat, secSize: nat, k: nat, from: int, to: int)
    requires RingInv(r, used, secSize) && 0 < k <= used <= |r| && |r| == |q|
    requires Misread(r[k - 1], q[k - 1], from) && q[k - 1].time < to
    ensures Fed(r, q, k, from, to) == Want(r, k, from, to) <==> LastTime(r[k - 1]) < to
    ensures LastTime(r[k - 1]) < to ==> FirstTime(r[k - 1]) < to
  {
    hide Logs; hide RingInv; hide SectorInv; hide Select; hide Rev; hide Want;
    if LastTime(r[k - 1]) < to {
      NothingIn(r, used, secSize, k, from, to);
    } else {
      LastIn(r, used, secSize, k, from, to);
      RevMember(Select(Logs(r[k - 1]), to, from));
      WantTop(r, k, from, to);
    }
  }

  lemma SpoilsHere(r: seq<TsSector>, q: seq<Log>, used: nat, k: nat, from: int, to: int)
    requires 0 < k <= used <= |r| && |r| == |q| && (k < used ==> FirstTime(r[k]) >= to)
    ensures Spoils(r, q, used, k - 1, from, to)
            <==> Misread(r[k - 1], q[k - 1], from) && (q[k - 1].time >= to || LastTime(r[k - 1]) >= to)
  {
  }

  /** A query back in time is right exactly if no sector that it reaches spoils it. */
  lemma {:induction false} FedExact(r: seq<TsSector>, q: seq<Log>, used: nat, secSize: nat, k: nat, from: int, to: int)
    requires RingInv(r, used, secSize) && k <= used <= |r| && |r| == |q|
    requires k < used ==> FirstTime(r[k]) >= to
    ensures Fed(r, q, k, from, to) == Want(r, k, from, to)
            <==> forall j :: 0 <= j < k ==> !Spoils(r, q, used, j, from, to)
  {
    hide *;
    if k == 0 {
      NoneYet(r, q, from, to);
    } else {
      var x, t := r[k - 1], q[k - 1];
      SpoilsHere(r, q, used, k, from, to);
      if FirstTime(x) < to {
        Unreached(r, q, used, secSize, k - 1, from, to);
      } else {
        FedExact(r, q, used, secSize, k - 1, from, to);
      }
      if !Misread(x, t, from) {
        FedStep(r, q, used, secSize, k, from, to);
      } else if t.time >= to {
        PhantomShows(r, q, used, secSize, k, from, to);
      } else {
        StopsEarly(r, q, used, secSize, k, from, to);
      }
    }
  }

  lemma NoneYet(r: seq<TsSector>, q: seq<Log>, from: int, to: int)
    requires |r| == |q|
    ensures Fed(r, q, 0, from, to) == Want(r, 0, from, to)
  {
    FlatNone(r[..0]);
  }

  /** What a query forward in time still has to deliver from sector `j` on. */
  function Ahead(r: seq<TsSector>, j: nat, from: int, to: int): seq<Log>
    requires j <= |r|
  {
    Select(Flat(r[j..]), from, to)
  }

  lemma AheadEnds(r: seq<TsSector>, from: int, to: int)
    ensures Owes([], Ahead(r, 0, from, to), Select(Flat(r), from, to))
    ensures Ahead(r, |r|, from, to) == []
  {
    assert r[0..] == r;
    FlatNone(r[|r|..]);
  }

  lemma AheadNone(r: seq<TsSector>, used: nat, secSize: nat, j: nat, from: int, to: int)
    requires RingInv(r, used, secSize) && used <= j <= |r|
    ensures Ahead(r, j, from, to) == []
  {
    EmptyRest(r, used, secSize, j);
  }

  lemma AheadSplit(r: seq<TsSector>, j: nat, from: int, to: int)
    requires j < |r|
    ensures Ahead(r, j, from, to) == Select(Logs(r[j]), from, to) + Ahead(r, j + 1, from, to)
  {
    hide Logs; hide Flat; hide Select;
    FlatAt(r, j);
    SelectConcat(Logs(r[j]), Flat(r[j + 1..]), from, to);
  }

  lemma NothingAhead(r: seq<TsSector>, used: nat, secSize: nat, j: nat, from: int, to: int)
    requires RingInv(r, used, secSize) && j < used <= |r| && LastTime(r[j]) > to
    ensures Ahead(r, j + 1, from, to) == []
  {
    hide Flat; hide SectorInv; hide RingInv;
    RingBehind(r, used, secSize, j, j + 1);
    AboveMore(Flat(r[j + 1..]), LastTime(r[j]), to);
    SelectNone(Flat(r[j + 1..]), from, to);
  }

  lemma AboveMore(s: seq<Log>, t: int, u: int)
    requires Above(s, t) && u < t
    ensures Above(s, u)
  {
  }

  lemma NothingHere(x: TsSector, secSize: nat, from: int, to: int)
    requires SectorInv(x, secSize) && LastTime(x) < from
    ensures Select(Logs(x), from, to) == []
  {
    SectorTimes(x, secSize);
    hide Logs; hide SectorInv; hide Sorted;
    SelectNone(Logs(x), from, to);
  }

  lemma TimesRise(r: seq<TsSector>, used: nat, secSize: nat, j: nat)
    requires RingInv(r, used, secSize) && j < used
    ensures r[j].idx != [] && 0 < FirstTime(r[j]) <= LastTime(r[j])
    ensures j > 0 ==> LastTime(r[j - 1]) < FirstTime(r[j])
  {
    UsedSector(r, used, secSize, j);
    SectorTimes(r[j], secSize);
  }

  /** Sector `j` in a query forward in time, after `before` has been delivered. */
  lemma ForwardSplit(r: seq<TsSector>, used: nat, secSize: nat, j: nat, from: int, to: int, before: seq<Log>, want: seq<Log>)
    requires RingInv(r, used, secSize) && j < used <= |r| && Owes(before, Ahead(r, j, from, to), want)
    ensures r[j].idx != []
    ensures Owes(before, Select(Logs(r[j]), from, to) + Ahead(r, j + 1, from, to), want)
    ensures LastTime(r[j]) > to ==> Ahead(r, j + 1, from, to) == []
    ensures LastTime(r[j]) < from ==> Owes(before, Ahead(r, j + 1, from, to), want)
    ensures FirstTime(r[j]) <= LastTime(r[j]) && (j > 0 ==> LastTime(r[j - 1]) < FirstTime(r[j]))
  {
    UsedSector(r, used, secSize, j);
    hide *;
    TimesRise(r, used, secSize, j);
    AheadSplit(r, j, from, to);
    if LastTime(r[j]) < from {
      NothingHere(r[j], secSize, from, to);
      OwesInTurn(before, [], Ahead(r, j + 1, from, to), want);
    }
    if LastTime(r[j]) > to {
      NothingAhead(r, used, secSize, j, from, to);
    }
  }

  lemma FedNone(r: seq<TsSector>, q: seq<Log>, from: int, to: int)
    requires |r| == |q|
    ensures Fed(r, q, 0, from, to) == []
  {
  }

  lemma FedTop(r: seq<TsSector>, q: seq<Log>, k: nat, from: int, to: int, before: seq<Log>, want: seq<Log>)
    requires 0 < k <= |r| == |q| && Owes(before, Fed(r, q, k, from, to), want)
    ensures var rest := if FirstTime(r[k - 1]) < to then [] else Fed(r, q, k - 1, from, to);
            want == FedOne(r[k - 1], q[k - 1], from, to, before, rest)
  {
    hide Rev; hide Select; hide Logs; hide Misread; hide LastTime; hide FirstTime;
    var first := Rev(Select(Logs(r[k - 1]), to, from));
    var rest := if FirstTime(r[k - 1]) < to then [] else Fed(r, q, k - 1, from, to);
    if !Misread(r[k - 1], q[k - 1], from) {
      FedUnspoilt(r, q, k, from, to);
      OwesInTurn(before, first, rest, want);
    } else if q[k - 1].time >= to {
      assert Fed(r, q, k, from, to) == [q[k - 1]] + first + rest;
      OwesInTurn(before, [q[k - 1]] + first, rest, want);
      assert before + ([q[k - 1]] + first) == before + [q[k - 1]] + first;
    }
  }

  /** A sector that begins after the start of a query back in time has nothing for it. */
  lemma FedSkip(r: seq<TsSector>, q: seq<Log>, secSize: nat, k: nat, from: int, to: int)
    requires 0 < k <= |r| == |q| && SectorInv(r[k - 1], secSize) && to < from < FirstTime(r[k - 1])
    requires FirstTime(r[k - 1]) <= LastTime(r[k - 1])
    ensures Fed(r, q, k, from, to) == Fed(r, q, k - 1, from, to)
  {
    hide Logs; hide SectorInv; hide Select; hide Rev; hide FirstTime; hide LastTime; hide Decoded; hide Bottom;
    NoneInRange(r[k - 1], secSize, from, to);
    assert [] + [] + Fed(r, q, k - 1, from, to) == Fed(r, q, k - 1, from, to);
  }

  lemma NoneInRange(x: TsSector, secSize: nat, from: int, to: int)
    requires SectorInv(x, secSize) && from < FirstTime(x)
    ensures Rev(Select(Logs(x), to, from)) == []
  {
    SectorTimes(x, secSize);
    SelectNone(Logs(x), to, from);
    hide Logs; hide SectorInv; hide Select;
    RevMember([]);
  }

  /** Sector `k - 1` in a query back in time. */
  lemma BackwardSplit(r: seq<TsSector>, q: seq<Log>, used: nat, secSize: nat, k: nat, from: int, to: int,
                      before: seq<Log>, want: seq<Log>)
    requires RingInv(r, used, secSize) && 0 < k <= used <= |r| && |r| == |q| && from > to
    requires Owes(before, Fed(r, q, k, from, to), want)
    ensures var rest := if FirstTime(r[k - 1]) < to then [] else Fed(r, q, k - 1, from, to);
            want == FedOne(r[k - 1], q[k - 1], from, to, before, rest)
    ensures from < FirstTime(r[k - 1]) ==> Owes(before, Fed(r, q, k - 1, from, to), want)
    ensures 0 < FirstTime(r[k - 1]) <= LastTime(r[k - 1])
    ensures k < used ==> LastTime(r[k - 1]) < FirstTime(r[k])
  {
    UsedSector(r, used, secSize, k - 1);
    hide *;
    FedTop(r, q, k, from, to, before, want);
    TimesRise(r, used, secSize, k - 1);
    if k < used {
      TimesRise(r, used, secSize, k);
    }
    if from < FirstTime(r[k - 1]) {
      FedSkip(r, q, secSize, k, from, to);
    }
  }

  lemma WantAll(r: seq<TsSector>, used: nat, secSize: nat, from: int, to: int)
    requires RingInv(r, used, secSize) && used <= |r|
    ensures Want(r, used, from, to) == Rev(Select(Flat(r), to, from))
  {
    EmptyRest(r, used, secSize, used);
  }

  /** The positions of the logs with this status. */
  function Matching(s: seq<Log>, status: TslStatus): set<nat> { set i: nat | i < |s| && s[i].status == status }

  lemma MatchingNone(s: seq<Log>, status: TslStatus)
    ensures Matching(s[..0], status) == {}
  {
  }

  lemma MatchingNext(s: seq<Log>, i: nat, status: TslStatus)
    requires i < |s|
    ensures |Matching(s[..i + 1], status)| == |Matching(s[..i], status)| + if s[i].status == status then 1 else 0
  {
    var p, q := Matching(s[..i], status), Matching(s[..i + 1], status);
    assert q == if s[i].status == status then p + {i} else p;
  }

  lemma NeverStops(v: seq<Log>, want: seq<Log>, cb: seq<Log> -> bool)
    requires Delivered(v, want, cb) && forall w :: !cb(w)
    ensures v == want
  {
  }

  lemma ByteReads(b: bv8)
    ensures b == 0x7F ==> Decoded([b], 5) == 1
    ensures b == ERASED_BYTE ==> Decoded([b], 5) == 0
  {
    OneBits(b);
    hide Cleared;
    forall n: nat | 0 < n <= 5 ensures Decoded([b], n) == if Cleared(b, n - 1) then n else Decoded([b], n - 1) {
    }
  }

  lemma OneBits(b: bv8)
    ensures b == 0x7F ==> Cleared(b, 0) && !Cleared(b, 1) && !Cleared(b, 2) && !Cleared(b, 3) && !Cleared(b, 4)
    ensures b == ERASED_BYTE ==> !Cleared(b, 0) && !Cleared(b, 1) && !Cleared(b, 2) && !Cleared(b, 3) && !Cleared(b, 4)
  {
  }

  /** A sector of 128 bytes, full to the last one with a single log. */
  lemma ExactFit(x: TsSector, payload: seq<bv8>, beyond: seq<bv8>)
    requires SectorInv(x, 128) && Logs(x) == [Log(TSL_WRITE, 5, payload)] && |payload| == 72
    ensures FirstTime(x) == LastTime(x) == 5
    ensures payload[0] == 0x7F ==> SlotBehind(x, 128, beyond) == Log(TSL_PRE_WRITE, 0, [])
    ensures payload[0] == ERASED_BYTE ==> SlotBehind(x, 128, beyond) == Log(TSL_UNUSED, 0, [])
  {
    hide Decoded; hide FromLe32;
    assert Logs(x)[0] == LogAt(x, 0);
    assert Bottom(x.idx, 128, 1) == 128 - x.idx[0].len;
    assert x.data[56..128] == payload && (x.data + beyond)[56..72][..1] == [payload[0]];
    ByteReads(payload[0]);
  }

  /** A query back in time over that sector alone. */
  lemma FedExactFit(r: seq<TsSector>, q: seq<Log>, payload: seq<bv8>, beyond: seq<bv8>)
    requires |r| == |q| && r != [] && SectorInv(r[0], 128) && Logs(r[0]) == [Log(TSL_WRITE, 5, payload)] && |payload| == 72
    requires q[0] == SlotBehind(r[0], 128, beyond)
    ensures payload[0] == 0x7F ==> Fed(r, q, 1, 9, 1) == []
    ensures payload[0] == ERASED_BYTE ==> Fed(r, q, 1, 9, 1) == [Log(TSL_WRITE, 5, payload)]
  {
    hide SectorInv; hide Logs; hide Rev; hide Select; hide SlotBehind;
    ExactFit(r[0], payload, beyond);
    SelectOne(Log(TSL_WRITE, 5, payload), 1, 9);
    RevOne(Log(TSL_WRITE, 5, payload));
  }
}
