/**
 The walk over the bytes of one sector: from record to record, or, behind a record that was cut short, by
 the magic word.  The module says which records it visits and where it takes the free space to begin.
 */
module KvWalk {
  import opened Crc
  import opened FdbDef
  import opened FlashScan
  import opened KvCodec
  import opened KvFlash
  import opened LittleEndian
  import opened Status
  import opened Wrappers

  /** What lies at one place of a sector: a complete record, one cut short behind its header, one that was complete
      and has been damaged, or nothing but a status byte. */
  datatype Spot = Good(len: nat) | Torn(len: nat) | Bad(len: nat) | Speck(len: nat)

  function Start(spots: seq<Spot>, k: nat): (a: nat)
    requires k <= |spots|
    ensures a >= SECTOR_HDR
  {
    if k == 0 then SECTOR_HDR else Start(spots, k - 1) + spots[k - 1].len
  }

  /** A walk comes to every spot with a header, and always to the first one. */
  predicate Seen(spots: seq<Spot>, k: nat)
    requires k < |spots|
  {
    k == 0 || !spots[k].Speck?
  }

  predicate SpotOk(d: Bytes, a: nat, s: Spot, first: bool, dbSize: nat)
    requires a + KV_HDR <= |d| && a + s.len <= |d|
  {
    match s
    case Good(len) => LenOk(len, dbSize) && MagicAt(d, a) && LenOf(d, a) == len && CrcOk(d, a, len)
    case Torn(len) =>
      && LenOk(len, dbSize) && MagicAt(d, a) && LenOf(d, a) == len && !CrcOk(d, a, len)
      && StatusOf(d, a) in {PRE_WRITE.Rank(), ERR_HDR.Rank()}
    case Bad(len) =>
      && LenOk(len, dbSize) && MagicAt(d, a) && LenOf(d, a) == len && !CrcOk(d, a, len)
      && StatusOf(d, a) !in {PRE_WRITE.Rank(), ERR_HDR.Rank()}
    case Speck(len) =>
      if first then len == KV_HDR && !LenOk(LenOf(d, a), dbSize) && StatusOf(d, a) == ERR_HDR.Rank() else len == 1
  }

  /** `a` lies inside a complete record. */
  ghost predicate Inside(spots: seq<Spot>, a: nat) {
    exists k :: 0 <= k < |spots| && spots[k].Good? && Start(spots, k) < a < Start(spots, k) + spots[k].len
  }

  ghost predicate Heads(spots: seq<Spot>, a: nat) {
    exists k :: 0 <= k < |spots| && !spots[k].Speck? && Start(spots, k) == a
  }

  /** The magic word is nowhere but in the headers and, harmlessly, inside complete records. */
  ghost predicate NoPhantom(d: Bytes, spots: seq<Spot>) {
    forall a :: SECTOR_HDR <= a && MagicAt(d, a) ==> Heads(spots, a) || Inside(spots, a)
  }

  /** The content of a sector: the allocator leaves room behind every record, the rest is erased. */
  ghost predicate Content(d: Bytes, spots: seq<Spot>, dbSize: nat) {
    && SECTOR_HDR <= |d| <= dbSize
    && (forall k :: 0 <= k < |spots| ==> spots[k].len > 0 && Start(spots, k) + spots[k].len + REMAIN_THRESHOLD < |d|)
    && (forall k :: 0 <= k < |spots| ==> SpotOk(d, Start(spots, k), spots[k], k == 0, dbSize))
    && NoPhantom(d, spots)
    && Start(spots, |spots|) <= |d| && AllErased(d, Start(spots, |spots|), |d|)
  }

  ghost predicate Layout(d: Bytes, spots: seq<Spot>, dbSize: nat) { spots != [] && Content(d, spots, dbSize) }

  lemma {:induction false} StartsRise(spots: seq<Spot>, i: nat, j: nat)
    requires i <= j <= |spots|
    ensures Start(spots, i) <= Start(spots, j)
    ensures i < j ==> Start(spots, i) + spots[i].len <= Start(spots, j)
    decreases j
  {
    if i < j {
      StartsRise(spots, i, j - 1);
    }
  }

  /** The next spot from `k` on that has a header, if there is any. */
  function NextHead(spots: seq<Spot>, k: nat): (j: nat)
    requires k <= |spots|
    ensures k <= j <= |spots|
    ensures forall i :: k <= i < j ==> spots[i].Speck?
    ensures j < |spots| ==> !spots[j].Speck?
    decreases |spots| - k
  {
    if k == |spots| || !spots[k].Speck? then k else NextHead(spots, k + 1)
  }

  /** Where the search for the next record starts. */
  function From(spots: seq<Spot>, k: nat): nat
    requires k < |spots|
  {
    Start(spots, k) + if spots[k].Good? then spots[k].len else 1
  }

  lemma NotInBoth(spots: seq<Spot>, k: nat, a: nat, i: nat)
    requires k < |spots| && From(spots, k) <= a && i < |spots| && !spots[i].Speck?
    requires forall m :: 0 <= m < |spots| ==> spots[m].len > 0
    requires var j := NextHead(spots, k + 1); j < |spots| ==> a < Start(spots, j)
    ensures Start(spots, i) != a
    ensures spots[i].Good? ==> a <= Start(spots, i) || Start(spots, i) + spots[i].len <= a
  {
    hide Start;
    if i < k {
      StartsRise(spots, i, k);
    } else if i > k {
      StartsRise(spots, NextHead(spots, k + 1), i);
    }
  }

  lemma NeitherHeadNorInside(spots: seq<Spot>, k: nat, a: nat)
    requires k < |spots| && From(spots, k) <= a
    requires forall m :: 0 <= m < |spots| ==> spots[m].len > 0
    requires var j := NextHead(spots, k + 1); j < |spots| ==> a < Start(spots, j)
    ensures !Heads(spots, a) && !Inside(spots, a)
  {
    hide Start; hide From; hide NextHead;
    forall i | 0 <= i < |spots| && !spots[i].Speck?
      ensures Start(spots, i) != a
      ensures spots[i].Good? ==> a <= Start(spots, i) || Start(spots, i) + spots[i].len <= a
    {
      NotInBoth(spots, k, a, i);
    }
  }

  /** The magic word does not stand between a spot and the next one with a header. */
  lemma NothingBetween(d: Bytes, spots: seq<Spot>, dbSize: nat, k: nat, a: nat)
    requires Layout(d, spots, dbSize) && k < |spots| && From(spots, k) <= a
    requires var j := NextHead(spots, k + 1); j < |spots| ==> a < Start(spots, j)
    ensures !MagicAt(d, a)
  {
    assert NoPhantom(d, spots);
    assert forall m :: 0 <= m < |spots| ==> spots[m].len > 0;
    StartOk(spots, k);
    hide Layout; hide MagicAt; hide Start; hide NextHead;
    NeitherHeadNorInside(spots, k, a);
  }

  lemma StartOk(spots: seq<Spot>, k: nat)
    requires k < |spots|
    ensures From(spots, k) >= SECTOR_HDR
  {
  }

  /** A record is within reach of the search: the allocator has left enough room behind it. */
  lemma InReach(from: nat, a: nat, secSize: nat)
    requires from <= a && a + KV_HDR + REMAIN_THRESHOLD < secSize
    ensures a + FlashScan.MAGIC_OFFSET < ScanLimit(from, secSize - SECTOR_HDR)
  {
  }

  /** A cached free address lies behind the header of the last record. */
  ghost predicate EmptyBehind(spots: seq<Spot>, cachedEmpty: Option<nat>) {
    spots != [] && (cachedEmpty.Some? ==> Start(spots, |spots| - 1) + 1 < cachedEmpty.value)
  }

  /** `get_next_kv_addr` behind the record at spot `k`: what the sector cache knows saves the last search, and never
      changes its outcome. */
  method NextKvAddr(d: Bytes, start: nat, len: nat, crcOk: bool, cachedEmpty: Option<nat>,
                    ghost spots: seq<Spot>, ghost dbSize: nat, ghost k: nat)
    returns (r: Option<nat>)
    requires Layout(d, spots, dbSize) && k < |spots| && EmptyBehind(spots, cachedEmpty)
    requires start == Start(spots, k) && crcOk == spots[k].Good? && (crcOk ==> len == spots[k].len)
    ensures var j := NextHead(spots, k + 1); r == if j < |spots| then Some(Start(spots, j)) else None
  {
    hide *;
    FromIs(d, spots, dbSize, k);
    var from := if crcOk then start + len else start + 1;
    r := FindNextKvAddr(d, from, |d| - SECTOR_HDR, cachedEmpty);
    if cachedEmpty == Some(from) {
      NothingBehind(d, spots, dbSize, k, from, cachedEmpty);
    } else {
      FirstFound(d, spots, dbSize, k, r);
    }
  }

  lemma NothingBehind(d: Bytes, spots: seq<Spot>, dbSize: nat, k: nat, from: nat, cachedEmpty: Option<nat>)
    requires Layout(d, spots, dbSize) && k < |spots| && EmptyBehind(spots, cachedEmpty)
    requires from == From(spots, k) && cachedEmpty == Some(from)
    ensures NextHead(spots, k + 1) == |spots|
  {
    hide SpotOk; hide NoPhantom; hide Start;
    if k < |spots| - 1 {
      StartsRise(spots, k, k + 1);
      StartsRise(spots, k + 1, |spots| - 1);
    }
  }

  lemma FromIs(d: Bytes, spots: seq<Spot>, dbSize: nat, k: nat)
    requires Layout(d, spots, dbSize) && k < |spots|
    ensures SECTOR_HDR <= |d| && From(spots, k) == Start(spots, k) + if spots[k].Good? then spots[k].len else 1
  {
    hide SpotOk; hide NoPhantom;
  }

  lemma NothingFound(d: Bytes, spots: seq<Spot>, dbSize: nat, k: nat, a: nat, limit: nat)
    requires Layout(d, spots, dbSize) && k < |spots| && From(spots, k) <= a
    requires var j := NextHead(spots, k + 1); j < |spots| ==> a < Start(spots, j)
    ensures !FoundAt(d, a, limit)
  {
    NothingBetween(d, spots, dbSize, k, a);
  }

  lemma FirstFound(d: Bytes, spots: seq<Spot>, dbSize: nat, k: nat, r: Option<nat>)
    requires Layout(d, spots, dbSize) && k < |spots| && SECTOR_HDR <= |d|
    requires var limit := ScanLimit(From(spots, k), |d| - SECTOR_HDR);
             && (r.Some? ==> From(spots, k) <= r.value && FoundAt(d, r.value, limit))
             && (forall a :: From(spots, k) <= a && (r.Some? ==> a < r.value) ==> !FoundAt(d, a, limit))
    ensures var j := NextHead(spots, k + 1); r == if j < |spots| then Some(Start(spots, j)) else None
  {
    hide *;
    var j, limit := NextHead(spots, k + 1), ScanLimit(From(spots, k), |d| - SECTOR_HDR);
    if j < |spots| {
      HeadFound(d, spots, dbSize, k, j);
    }
    if r.Some? && (j < |spots| ==> r.value < Start(spots, j)) {
      NothingFound(d, spots, dbSize, k, r.value, limit);
      assert false;
    }
  }

  lemma HeadFound(d: Bytes, spots: seq<Spot>, dbSize: nat, k: nat, j: nat)
    requires Layout(d, spots, dbSize) && k < j < |spots| && !spots[j].Speck?
    ensures From(spots, k) <= Start(spots, j)
    ensures FoundAt(d, Start(spots, j), ScanLimit(From(spots, k), |d| - SECTOR_HDR))
  {
    StartsRise(spots, k, j);
    assert SpotOk(d, Start(spots, j), spots[j], j == 0, dbSize);
    hide CrcOk; hide MagicAt; hide LenOf; hide StatusOf; hide ScanLimit;
    InReach(From(spots, k), Start(spots, j), |d|);
  }

  // ---------------------------------------------------------------- the whole sector

  /** The addresses that a walk over the first `k` spots comes to. */
  function Visits(spots: seq<Spot>, k: nat): seq<nat>
    requires k <= |spots|
  {
    if k == 0 then [] else Visits(spots, k - 1) + if Seen(spots, k - 1) then [Start(spots, k - 1)] else []
  }

  /** The bytes that it counts. */
  function SeenBytes(spots: seq<Spot>, k: nat): nat
    requires k <= |spots|
  {
    if k == 0 then 0 else SeenBytes(spots, k - 1) + if Seen(spots, k - 1) then spots[k - 1].len else 0
  }

  lemma {:induction false} SpecksUnseen(spots: seq<Spot>, k: nat, j: nat)
    requires 0 < k <= j <= |spots| && forall i :: k <= i < j ==> spots[i].Speck?
    ensures Visits(spots, j) == Visits(spots, k) && SeenBytes(spots, j) == SeenBytes(spots, k)
    decreases j
  {
    if k < j {
      SpecksUnseen(spots, k, j - 1);
    }
  }

  /** What the walk counts falls short of what is programmed by the bare status bytes behind the first spot. */
  lemma {:induction false} SeenOrSpeck(spots: seq<Spot>, k: nat)
    requires k <= |spots|
    ensures SECTOR_HDR + SeenBytes(spots, k) <= Start(spots, k)
    ensures SECTOR_HDR + SeenBytes(spots, k) == Start(spots, k)
            <==> forall i :: 0 <= i < k ==> Seen(spots, i) || spots[i].len == 0
  {
    if k > 0 {
      SeenOrSpeck(spots, k - 1);
    }
  }

  /** One more spot is read and counted; then the walk goes to the next one with a header. */
  lemma VisitNext(spots: seq<Spot>, k: nat)
    requires k < |spots| && Seen(spots, k)
    ensures var j := NextHead(spots, k + 1);
            && Visits(spots, j) == Visits(spots, k) + [Start(spots, k)]
            && SeenBytes(spots, j) == SeenBytes(spots, k) + spots[k].len
            && (j < |spots| ==> Seen(spots, j))
  {
    SpecksUnseen(spots, k + 1, NextHead(spots, k + 1));
  }

  /** What reading the record at a spot gives. */
  lemma SpotRead(d: Bytes, spots: seq<Spot>, dbSize: nat, k: nat)
    requires Layout(d, spots, dbSize) && k < |spots| && Seen(spots, k)
    ensures var a := Start(spots, k);
            && a + KV_HDR <= |d|
            && (LenOk(LenOf(d, a), dbSize) <==> !spots[k].Speck?)
            && (if spots[k].Speck? then StatusOf(d, a) == ERR_HDR.Rank() && spots[k].len == KV_HDR
                else LenOf(d, a) == spots[k].len && a + spots[k].len <= |d| && (CrcOk(d, a, spots[k].len) <==> spots[k].Good?)
                     && (spots[k].Torn? ==> StatusOf(d, a) in {PRE_WRITE.Rank(), ERR_HDR.Rank()})
                     && (spots[k].Bad? ==> StatusOf(d, a) !in {PRE_WRITE.Rank(), ERR_HDR.Rank()}))
  {
    hide CrcOk; hide MagicAt; hide LenOf; hide StatusOf; hide NoPhantom; hide AllErased;
    assert SpotOk(d, Start(spots, k), spots[k], k == 0, dbSize);
  }

  lemma FirstSpot(d: Bytes, spots: seq<Spot>, dbSize: nat)
    requires Layout(d, spots, dbSize)
    ensures |spots| > 0 && Start(spots, 0) == SECTOR_HDR && Seen(spots, 0) && Visits(spots, 0) == [] && SeenBytes(spots, 0) == 0
    ensures EmptyBehind(spots, None)
  {
    hide SpotOk; hide NoPhantom; hide AllErased;
  }

  /** The first damaged record, if there is any. */
  function FirstBad(spots: seq<Spot>, k: nat): (b: nat)
    requires k <= |spots|
    ensures k <= b <= |spots| && (forall i :: k <= i < b ==> !spots[i].Bad?) && (b < |spots| ==> spots[b].Bad?)
    decreases |spots| - k
  {
    if k == |spots| || spots[k].Bad? then k else FirstBad(spots, k + 1)
  }

  lemma {:induction false} BadAhead(spots: seq<Spot>, k: nat, j: nat)
    requires k <= j <= |spots| && forall i :: k <= i < j ==> !spots[i].Bad?
    ensures FirstBad(spots, k) == FirstBad(spots, j)
    decreases j - k
  {
    if k < j {
      BadAhead(spots, k + 1, j);
    }
  }

  /** The traversal of a sector in use: the records in it, and where its free space begins.  It stops at a damaged
      record; the check for the erased tail behind it then finds the free space all the same. */
  method Traverse(dev: array<bv8>, dbSize: nat, ghost spots: seq<Spot>)
    returns (starts: seq<nat>, emptyKv: nat, remain: nat, err: FdbErr)
    requires Layout(dev[..], spots, dbSize)
    modifies dev
    ensures dev[..] == old(dev[..])
    ensures var b := FirstBad(spots, 0);
            && starts == Visits(spots, b) + (if b < |spots| then [Start(spots, b)] else [])
            && err == (if b < |spots| then READ_ERR else NO_ERR)
            && TailBegins(dev[..], SECTOR_HDR + SeenBytes(spots, b), dev.Length, emptyKv)
            && remain == dev.Length - emptyKv
  {
    hide *;
    ghost var d := dev[..];
    var start, going := SECTOR_HDR, true;
    ghost var k: nat := 0;
    FirstSpot(d, spots, dbSize);
    CountFits(d, spots, dbSize);
    starts, emptyKv, remain, err := [], SECTOR_HDR, dev.Length - SECTOR_HDR, NO_ERR;
    while going
      invariant dev[..] == d && k <= |spots|
      invariant emptyKv == SECTOR_HDR + SeenBytes(spots, k) <= dev.Length
      invariant err == NO_ERR ==> starts == Visits(spots, k) && remain == dev.Length - emptyKv
      invariant going ==> err == NO_ERR && k < |spots| && start == Start(spots, k) && Seen(spots, k)
      invariant !going && err == NO_ERR ==> k == |spots|
      invariant err != NO_ERR ==> err == READ_ERR && k < |spots| && spots[k].Bad? && !going && remain == 0
                                  && starts == Visits(spots, k) + [Start(spots, k)] && dev.Length > emptyKv
      invariant FirstBad(spots, 0) == FirstBad(spots, k)
      decreases |spots| - k, going
    {
      SpotRead(d, spots, dbSize, k);
      var node := ReadKv(dev, start, dbSize);
      if !node.crcOk && node.status != PRE_WRITE.Rank() && node.status != ERR_HDR.Rank() {
        StopsAtBad(d, spots, dbSize, k);
        starts, remain, err := starts + [start], 0, READ_ERR;
        going := false;
      } else {
        VisitNext(spots, k);
        NextGood(spots, k);
        starts, emptyKv := starts + [start], emptyKv + node.len;
        remain := remain - node.len;
        var next := NextKvAddr(dev[..], start, node.len, node.crcOk, None, spots, dbSize, k);
        going := next.Some?;
        if going {
          start := next.value;
        }
        k := NextHead(spots, k + 1);
      }
    }
    TraverseEnd(d, spots, dbSize, k, err != NO_ERR);
    var ffAddr := ContinueFfAddr(dev[..], emptyKv, dev.Length);
    if err != NO_ERR {
      BehindBad(d, spots, dbSize, k, emptyKv, ffAddr);
    }
    if emptyKv != ffAddr {
      emptyKv := ffAddr;
      remain := dev.Length - ffAddr;
    }
  }

  lemma NextGood(spots: seq<Spot>, k: nat)
    requires k < |spots| && !spots[k].Bad?
    ensures FirstBad(spots, k) == FirstBad(spots, NextHead(spots, k + 1))
  {
    BadAhead(spots, k, NextHead(spots, k + 1));
  }

  lemma StopsAtBad(d: Bytes, spots: seq<Spot>, dbSize: nat, k: nat)
    requires Layout(d, spots, dbSize) && k < |spots| && spots[k].Bad?
    ensures SECTOR_HDR + SeenBytes(spots, k) < |d| && FirstBad(spots, k) == k
  {
    SeenOrSpeck(spots, k);
    hide SpotOk; hide NoPhantom; hide AllErased;
  }

  lemma TraverseEnd(d: Bytes, spots: seq<Spot>, dbSize: nat, k: nat, bad: bool)
    requires k <= |spots| && (bad ==> k < |spots| && spots[k].Bad?) && (!bad ==> k == |spots|)
    ensures FirstBad(spots, k) == k && Visits(spots, k) + [] == Visits(spots, k)
  {
  }

  /** A damaged record is programmed, so the erased tail begins behind its header. */
  lemma BehindBad(d: Bytes, spots: seq<Spot>, dbSize: nat, k: nat, counted: nat, ffAddr: nat)
    requires Layout(d, spots, dbSize) && k < |spots| && spots[k].Bad? && counted == SECTOR_HDR + SeenBytes(spots, k)
    requires counted <= |d| && TailBegins(d, counted, |d|, ffAddr)
    ensures ffAddr != counted
  {
    SeenOrSpeck(spots, k);
    SpotPlaced(d, spots, dbSize, k);
    hide SpotOk; hide NoPhantom; hide CrcOk; hide LenOf; hide StatusOf; hide Layout; hide Start; hide SeenBytes;
    assert MagicAt(d, Start(spots, k)) by {
      assert SpotOk(d, Start(spots, k), spots[k], k == 0, dbSize);
      BadMagic(d, Start(spots, k), spots[k], k == 0, dbSize);
    }
    MagicProgrammed(d, Start(spots, k));
  }

  lemma BadMagic(d: Bytes, a: nat, s: Spot, first: bool, dbSize: nat)
    requires a + KV_HDR <= |d| && a + s.len <= |d| && SpotOk(d, a, s, first, dbSize) && s.Bad?
    ensures MagicAt(d, a)
  {
  }

  lemma MagicProgrammed(d: Bytes, a: nat)
    requires MagicAt(d, a)
    ensures a + 4 < |d| && d[a + 4] != ERASED_BYTE
  {
    assert d[a + 4..a + 8][0] == d[a + 4];
  }

  /** The walk that `kv_iterator` makes over the records of a sector, with what the sector cache knows: it comes to
      every record that has a header, damaged or not. */
  method Visit(dev: array<bv8>, dbSize: nat, cachedEmpty: Option<nat>, ghost spots: seq<Spot>) returns (starts: seq<nat>)
    requires Layout(dev[..], spots, dbSize) && EmptyBehind(spots, cachedEmpty)
    modifies dev
    ensures dev[..] == old(dev[..]) && starts == Visits(spots, |spots|)
  {
    hide *;
    ghost var d := dev[..];
    var start, going := SECTOR_HDR, true;
    ghost var k: nat := 0;
    FirstSpot(d, spots, dbSize);
    starts := [];
    while going
      invariant dev[..] == d && k <= |spots| && starts == Visits(spots, k)
      invariant going ==> k < |spots| && start == Start(spots, k) && Seen(spots, k)
      invariant !going ==> k == |spots|
      decreases |spots| - k, going
    {
      SpotRead(d, spots, dbSize, k);
      var node := ReadKv(dev, start, dbSize);
      VisitNext(spots, k);
      starts := starts + [start];
      var next := NextKvAddr(dev[..], start, node.len, node.crcOk, cachedEmpty, spots, dbSize, k);
      going := next.Some?;
      if going {
        start := next.value;
      }
      k := NextHead(spots, k + 1);
    }
  }

  lemma CountFits(d: Bytes, spots: seq<Spot>, dbSize: nat)
    requires Layout(d, spots, dbSize)
    ensures forall k :: 0 <= k <= |spots| ==> SECTOR_HDR + SeenBytes(spots, k) <= |d|
    ensures SECTOR_HDR <= |d|
  {
    forall k | 0 <= k <= |spots| ensures SECTOR_HDR + SeenBytes(spots, k) <= |d| {
      SeenOrSpeck(spots, k);
      StartsRise(spots, k, |spots|);
    }
    hide SpotOk; hide NoPhantom; hide AllErased;
  }

  /** The free space is found to begin right behind the last record exactly if the walk has counted every
      byte, or the last programmed byte does not look erased.  Otherwise (a bare status byte is left in the
      sector, and the last value ends in `0xFF`) it begins too early. */
  lemma FreeSpaceExact(d: Bytes, spots: seq<Spot>, dbSize: nat, emptyKv: nat)
    requires Layout(d, spots, dbSize)
    requires TailBegins(d, SECTOR_HDR + SeenBytes(spots, |spots|), |d|, emptyKv)
    ensures var end := Start(spots, |spots|);
            && emptyKv <= end
            && (emptyKv == end
                <==> (forall i :: 0 <= i < |spots| ==> Seen(spots, i)) || d[end - 1] != ERASED_BYTE)
  {
    hide *;
    SeenOrSpeck(spots, |spots|);
    LayoutEnd(d, spots, dbSize);
    TailMeets(d, SECTOR_HDR + SeenBytes(spots, |spots|), Start(spots, |spots|), emptyKv);
  }

  lemma LayoutEnd(d: Bytes, spots: seq<Spot>, dbSize: nat)
    requires Layout(d, spots, dbSize)
    ensures Start(spots, |spots|) <= |d| && AllErased(d, Start(spots, |spots|), |d|)
    ensures SECTOR_HDR > 0 && forall i :: 0 <= i < |spots| ==> spots[i].len > 0
  {
    hide SpotOk; hide NoPhantom;
  }

  lemma TailMeets(d: Bytes, counted: nat, end: nat, r: nat)
    requires 0 < counted <= end <= |d| && AllErased(d, end, |d|) && TailBegins(d, counted, |d|, r)
    ensures r <= end && (r == end <==> counted == end || d[end - 1] != ERASED_BYTE)
  {
  }

  // ---------------------------------------------------------------- appending

  lemma NoMagicInErased(d: Bytes, from: nat, a: nat)
    requires AllErased(d, from, |d|) && from <= a
    ensures !MagicAt(d, a)
  {
    if a + 8 <= |d| {
      assert d[a + 4..a + 8][0] == d[a + 4];
    }
  }

  lemma FreshContent(d: Bytes, dbSize: nat)
    requires SECTOR_HDR <= |d| <= dbSize && AllErased(d, SECTOR_HDR, |d|)
    ensures Content(d, [], dbSize)
  {
    forall a | SECTOR_HDR <= a ensures !MagicAt(d, a) {
      NoMagicInErased(d, SECTOR_HDR, a);
    }
  }

  lemma {:induction false} StartAppend(spots: seq<Spot>, s: Spot, k: nat)
    requires k <= |spots|
    ensures Start(spots + [s], k) == Start(spots, k)
  {
    if k > 0 {
      StartAppend(spots, s, k - 1);
      assert (spots + [s])[k - 1] == spots[k - 1];
    }
  }

  lemma FieldsSame(d: Bytes, e: Bytes, a: nat, len: nat)
    requires |d| == |e| && KV_HDR <= len && a + len <= |d| && forall o :: a < o < a + len ==> e[o] == d[o]
    ensures MagicAt(e, a) == MagicAt(d, a) && LenOf(e, a) == LenOf(d, a)
    ensures CrcOk(e, a, len) == CrcOk(d, a, len)
    ensures e[a] == d[a] ==> StatusOf(e, a) == StatusOf(d, a)
  {
    hide Crc32; hide Word; hide FromLe32; hide Decoded;
    assert e[a + 4..a + 8] == d[a + 4..a + 8] && e[a + 8..a + 12] == d[a + 8..a + 12];
    assert e[a + 12..a + 16] == d[a + 12..a + 16];
    assert e[a + 16..a + len] == d[a + 16..a + len];
  }

  /** A spot depends on its own bytes only. */
  lemma SpotSame(d: Bytes, e: Bytes, a: nat, s: Spot, first: bool, dbSize: nat)
    requires |d| == |e| && a + KV_HDR <= |d| && a + s.len <= |d| && SpotOk(d, a, s, first, dbSize)
    requires forall o :: a <= o < a + s.len ==> e[o] == d[o]
    ensures SpotOk(e, a, s, first, dbSize)
  {
    hide MagicAt; hide LenOf; hide StatusOf; hide CrcOk;
    if !s.Speck? || first {
      FieldsSame(d, e, a, s.len);
    }
  }

  /** The new record brings the magic word only in its header and behind it. */
  lemma NoNewPhantom(d: Bytes, end: nat, image: Bytes, a: nat)
    requires end + |image| <= |d| && AllErased(d, end, |d|) && |image| >= KV_HDR
    requires image[0] == LowBits(WRITE.Rank()) && image[1] == 0xFF && image[2] == 0xFF && image[3] == 0xFF
    requires a != end && !(end < a < end + |image|) && MagicAt(Splice(d, end, image), a)
    ensures a < end && MagicAt(d, a)
  {
    var e, p := Splice(d, end, image), a + 4;
    assert e[p..p + 4] == MAGIC;
    assert e[p] == 0x4B && e[p + 1] == 0x56 && e[p + 2] == 0x30 && e[p + 3] == 0x30;
    SplicedAt(d, end, image);
    hide Splice;
    if a >= end + |image| {
      assert false;
    }
    if p + 4 > end {
      assert false;
    }
    assert e[p..p + 4] == d[p..p + 4];
  }

  lemma SplicedAt(d: Bytes, end: nat, image: Bytes)
    requires end + |image| <= |d|
    ensures var e := Splice(d, end, image);
            forall o :: 0 <= o < |d| ==> e[o] == if end <= o < end + |image| then image[o - end] else d[o]
  {
  }

  lemma NewSpot(d: Bytes, end: nat, dbSize: nat, key: Key, value: Value, first: bool)
    requires Encodable(key, value) && end + KvLen(key, value) <= |d| <= dbSize
    ensures SpotOk(Splice(d, end, Image(WRITE.Rank(), key, value)), end, Good(KvLen(key, value)), first, dbSize)
  {
    var image := Image(WRITE.Rank(), key, value);
    var e := Splice(d, end, image);
    assert e[end..end + |image|] == image;
    RoundTrip(e, end, WRITE.Rank(), key, value);
    hide CrcOk; hide LenOf; hide MagicAt; hide Image; hide Splice; hide StatusOf;
  }

  lemma OldSpot(d: Bytes, spots: seq<Spot>, dbSize: nat, image: Bytes, k: nat)
    requires Content(d, spots, dbSize) && k < |spots| && Start(spots, |spots|) + |image| <= |d|
    ensures Start(spots, k) + KV_HDR <= |d| && Start(spots, k) + spots[k].len <= |d|
    ensures SpotOk(Splice(d, Start(spots, |spots|), image), Start(spots, k), spots[k], k == 0, dbSize)
  {
    assert SpotOk(d, Start(spots, k), spots[k], k == 0, dbSize);
    hide SpotOk; hide NoPhantom; hide Splice;
    SplicedAt(d, Start(spots, |spots|), image);
    StartsRise(spots, k, |spots|);
    SpotSame(d, Splice(d, Start(spots, |spots|), image), Start(spots, k), spots[k], k == 0, dbSize);
  }

  lemma PhantomsKept(d: Bytes, spots: seq<Spot>, dbSize: nat, key: Key, value: Value)
    requires Content(d, spots, dbSize) && Encodable(key, value) && Start(spots, |spots|) + KvLen(key, value) <= |d|
    ensures NoPhantom(Splice(d, Start(spots, |spots|), Image(WRITE.Rank(), key, value)), spots + [Good(KvLen(key, value))])
  {
    assert WRITE.Rank() == 2;
    hide *;
    var end, image, s := Start(spots, |spots|), Image(WRITE.Rank(), key, value), Good(KvLen(key, value));
    var e, more := Splice(d, end, image), spots + [s];
    ImageFront(key, value);
    NewHead(spots, s);
    ContentFacts(d, spots, dbSize);
    forall a | SECTOR_HDR <= a && MagicAt(e, a) ensures Heads(more, a) || Inside(more, a) {
      if a != end && !(end < a < end + |image|) {
        NoNewPhantom(d, end, image, a);
        HeadOrInside(d, spots, a);
        MoreSpots(spots, s, a);
      }
    }
    PhantomFree(e, more);
  }

  lemma ImageFront(key: Key, value: Value)
    requires Encodable(key, value)
    ensures var image := Image(WRITE.Rank(), key, value);
            && |image| == KvLen(key, value) >= KV_HDR
            && image[0] == LowBits(WRITE.Rank()) && image[1] == 0xFF && image[2] == 0xFF && image[3] == 0xFF
  {
    ImageParts(WRITE.Rank(), key, value);
    hide Image; hide LowBits; hide HeaderRest;
  }

  lemma ContentFacts(d: Bytes, spots: seq<Spot>, dbSize: nat)
    requires Content(d, spots, dbSize)
    ensures NoPhantom(d, spots) && AllErased(d, Start(spots, |spots|), |d|)
  {
    hide SpotOk; hide NoPhantom;
  }

  lemma HeadOrInside(d: Bytes, spots: seq<Spot>, a: nat)
    requires NoPhantom(d, spots) && SECTOR_HDR <= a && MagicAt(d, a)
    ensures Heads(spots, a) || Inside(spots, a)
  {
    hide MagicAt;
  }

  lemma PhantomFree(d: Bytes, spots: seq<Spot>)
    requires forall a :: SECTOR_HDR <= a && MagicAt(d, a) ==> Heads(spots, a) || Inside(spots, a)
    ensures NoPhantom(d, spots)
  {
  }

  lemma NewHead(spots: seq<Spot>, s: Spot)
    requires s.Good?
    ensures Heads(spots + [s], Start(spots, |spots|))
    ensures forall a :: Start(spots, |spots|) < a < Start(spots, |spots|) + s.len ==> Inside(spots + [s], a)
  {
    StartAppend(spots, s, |spots|);
    assert (spots + [s])[|spots|] == s;
  }

  lemma MoreSpots(spots: seq<Spot>, s: Spot, a: nat)
    requires Heads(spots, a) || Inside(spots, a)
    ensures Heads(spots + [s], a) || Inside(spots + [s], a)
  {
    var more := spots + [s];
    if Heads(spots, a) {
      var k :| 0 <= k < |spots| && !spots[k].Speck? && Start(spots, k) == a;
      StartAppend(spots, s, k);
      assert more[k] == spots[k];
    } else {
      var k :| 0 <= k < |spots| && spots[k].Good? && Start(spots, k) < a < Start(spots, k) + spots[k].len;
      StartAppend(spots, s, k);
      assert more[k] == spots[k];
    }
  }

  /** Writing a record behind the others keeps the sector walkable, whatever bytes its value holds. */
  lemma AppendKeepsContent(d: Bytes, spots: seq<Spot>, dbSize: nat, key: Key, value: Value)
    requires Content(d, spots, dbSize) && Encodable(key, value)
    requires Start(spots, |spots|) + KvLen(key, value) + REMAIN_THRESHOLD < |d|
    ensures Layout(Splice(d, Start(spots, |spots|), Image(WRITE.Rank(), key, value)), spots + [Good(KvLen(key, value))], dbSize)
  {
    hide SpotOk; hide NoPhantom; hide Splice; hide Image; hide Start;
    var end, image, s := Start(spots, |spots|), Image(WRITE.Rank(), key, value), Good(KvLen(key, value));
    var e, more := Splice(d, end, image), spots + [s];
    PhantomsKept(d, spots, dbSize, key, value);
    SplicedAt(d, end, image);
    forall k | 0 <= k < |more|
      ensures more[k].len > 0 && Start(more, k) + more[k].len + REMAIN_THRESHOLD < |e|
      ensures SpotOk(e, Start(more, k), more[k], k == 0, dbSize)
    {
      StartAppend(spots, s, k);
      if k < |spots| {
        OldSpot(d, spots, dbSize, image, k);
      } else {
        NewSpot(d, end, dbSize, key, value, k == 0);
      }
    }
    StartAppend(spots, s, |spots|);
    StartLast(more);
  }

  lemma StartLast(spots: seq<Spot>)
    requires spots != []
    ensures Start(spots, |spots|) == Start(spots, |spots| - 1) + spots[|spots| - 1].len
  {
  }

  // ---------------------------------------------------------------- a new status

  predicate InMagic(b: bv8) { b == 0x4B || b == 0x56 || b == 0x30 }

  lemma StatusNotInMagic(status: nat)
    requires status < 8
    ensures !InMagic(LowBits(status))
  {
  }

  lemma MagicElsewhere(d: Bytes, at: nat, b: bv8, a: nat)
    requires at < |d| && !InMagic(b) && MagicAt(d[at := b], a)
    ensures MagicAt(d, a)
  {
    var e, p := d[at := b], a + 4;
    assert e[p..p + 4] == MAGIC;
    assert e[p] == 0x4B && e[p + 1] == 0x56 && e[p + 2] == 0x30 && e[p + 3] == 0x30;
    assert e[p..p + 4] == d[p..p + 4];
  }

  lemma SpotPlaced(d: Bytes, spots: seq<Spot>, dbSize: nat, k: nat)
    requires Content(d, spots, dbSize) && k < |spots|
    ensures spots[k].len > 0 && Start(spots, k) < Start(spots, k) + KV_HDR <= |d| && Start(spots, k) + spots[k].len <= |d|
    ensures SpotOk(d, Start(spots, k), spots[k], k == 0, dbSize)
  {
    hide SpotOk; hide NoPhantom; hide AllErased; hide Start;
  }

  lemma SpotsApart(spots: seq<Spot>, i: nat, k: nat)
    requires i < |spots| && k < |spots| && i != k && spots[i].len > 0 && spots[k].len > 0
    ensures !(Start(spots, i) <= Start(spots, k) < Start(spots, i) + spots[i].len)
  {
    hide Start;
    if i < k {
      StartsRise(spots, i, k);
    } else {
      StartsRise(spots, k, i);
    }
  }

  lemma GoodSame(d: Bytes, a: nat, s: Spot, first: bool, b: bv8, dbSize: nat)
    requires a + KV_HDR <= |d| && a + s.len <= |d| && s.Good? && SpotOk(d, a, s, first, dbSize)
    ensures SpotOk(d[a := b], a, s, first, dbSize)
  {
    hide MagicAt; hide LenOf; hide StatusOf; hide CrcOk;
    FieldsSame(d, d[a := b], a, s.len);
  }

  lemma StatusSpot(d: Bytes, spots: seq<Spot>, dbSize: nat, k: nat, b: bv8, i: nat)
    requires Content(d, spots, dbSize) && k < |spots| && spots[k].Good? && i < |spots|
    ensures Start(spots, k) < |d| && Start(spots, i) + KV_HDR <= |d| && Start(spots, i) + spots[i].len <= |d|
    ensures SpotOk(d[Start(spots, k) := b], Start(spots, i), spots[i], i == 0, dbSize)
  {
    hide *;
    SpotPlaced(d, spots, dbSize, i);
    SpotPlaced(d, spots, dbSize, k);
    if i == k {
      GoodSame(d, Start(spots, k), spots[k], i == 0, b, dbSize);
    } else {
      SpotsApart(spots, i, k);
      SpotSame(d, d[Start(spots, k) := b], Start(spots, i), spots[i], i == 0, dbSize);
    }
  }

  lemma PhantomsElsewhere(d: Bytes, spots: seq<Spot>, at: nat, b: bv8)
    requires NoPhantom(d, spots) && at < |d| && !InMagic(b)
    ensures NoPhantom(d[at := b], spots)
  {
    hide MagicAt; hide Heads; hide Inside; hide InMagic;
    forall a | SECTOR_HDR <= a && MagicAt(d[at := b], a) ensures Heads(spots, a) || Inside(spots, a) {
      MagicElsewhere(d, at, b, a);
    }
  }

  /** A new status of a complete record, as `set_kv`, `del_kv` and `move_kv` program it, changes nothing for the walk. */
  lemma StatusKeepsContent(d: Bytes, spots: seq<Spot>, dbSize: nat, k: nat, status: nat)
    requires Content(d, spots, dbSize) && k < |spots| && spots[k].Good? && status < 8
    ensures Start(spots, k) < |d| && Content(d[Start(spots, k) := LowBits(status)], spots, dbSize)
  {
    hide SpotOk; hide LowBits; hide NoPhantom; hide Start; hide MagicAt; hide InMagic;
    StatusSpot(d, spots, dbSize, k, LowBits(status), k);
    var at, b := Start(spots, k), LowBits(status);
    forall i | 0 <= i < |spots| ensures SpotOk(d[at := b], Start(spots, i), spots[i], i == 0, dbSize) {
      StatusSpot(d, spots, dbSize, k, b, i);
    }
    StatusNotInMagic(status);
    PhantomsElsewhere(d, spots, at, b);
    StartsRise(spots, k, |spots|);
    SpotPlaced(d, spots, dbSize, k);
  }
}
