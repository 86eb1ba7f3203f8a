/**
 Where the next record of a sector lands.  A status byte that a cut has left alone is not counted by a traversal, so
 behind it the free address can come out inside the last record.
 */
module KvFreeSpace {
  import opened Crc
  import opened FdbDef
  import opened FlashScan
  import opened KvCodec
  import opened KvFlash
  import opened KvWalk
  import opened LittleEndian
  import opened Status

  /** The first byte of a record that is being written: its status PRE_WRITE. */
  function BeginByte(): bv8 { LowBits(PRE_WRITE.Rank()) }

  /** A cut right after the first byte of a record: the walk passes by, and the free address is the one behind. */
  lemma BeginKeepsContent(d: Bytes, spots: seq<Spot>, dbSize: nat, emptyKv: nat)
    requires Layout(d, spots, dbSize) && Start(spots, |spots|) + 1 + REMAIN_THRESHOLD < |d|
    ensures var end, more := Start(spots, |spots|), spots + [Speck(1)];
            var e := d[end := BeginByte()];
            && Layout(e, more, dbSize) && Start(more, |more|) == end + 1
            && (TailBegins(e, SECTOR_HDR + SeenBytes(more, |more|), |d|, emptyKv) ==> emptyKv == end + 1)
  {
    hide *;
    var end, more, b := Start(spots, |spots|), spots + [Speck(1)], BeginByte();
    NotErased();
    EndInside(d, spots, dbSize);
    SpeckLayout(d, spots, dbSize, b);
    if TailBegins(d[end := b], SECTOR_HDR + SeenBytes(more, |more|), |d|, emptyKv) {
      FreeSpaceExact(d[end := b], more, dbSize, emptyKv);
    }
  }

  lemma EndInside(d: Bytes, spots: seq<Spot>, dbSize: nat)
    requires Layout(d, spots, dbSize) && Start(spots, |spots|) + 1 + REMAIN_THRESHOLD < |d|
    ensures Start(spots, |spots|) < |d|
  {
    hide Layout;
  }

  lemma NotErased()
    ensures BeginByte() != ERASED_BYTE && !InMagic(BeginByte())
  {
    StatusNotInMagic(1);
  }

  lemma SpeckLayout(d: Bytes, spots: seq<Spot>, dbSize: nat, b: bv8)
    requires Layout(d, spots, dbSize) && Start(spots, |spots|) + 1 + REMAIN_THRESHOLD < |d| && !InMagic(b)
    ensures var end, more := Start(spots, |spots|), spots + [Speck(1)];
            Start(more, |more|) == end + 1 && Layout(d[end := b], more, dbSize)
  {
    hide SpotOk; hide NoPhantom; hide InMagic; hide Start; hide MagicAt;
    var end, more := Start(spots, |spots|), spots + [Speck(1)];
    StartAppend(spots, Speck(1), |spots|);
    StartLast(more);
    SpeckPhantoms(d, spots, b);
    forall k | 0 <= k < |more|
      ensures more[k].len > 0 && Start(more, k) + more[k].len + REMAIN_THRESHOLD < |d|
      ensures SpotOk(d[end := b], Start(more, k), more[k], k == 0, dbSize)
    {
      StartAppend(spots, Speck(1), k);
      SpeckSpot(d, spots, dbSize, b, k);
    }
  }

  lemma SpeckSpot(d: Bytes, spots: seq<Spot>, dbSize: nat, b: bv8, k: nat)
    requires Layout(d, spots, dbSize) && Start(spots, |spots|) + 1 + REMAIN_THRESHOLD < |d| && k <= |spots|
    ensures var more := spots + [Speck(1)];
            && more[k].len > 0 && Start(spots, k) + more[k].len + REMAIN_THRESHOLD < |d|
            && Start(spots, |spots|) < |d|
            && SpotOk(d[Start(spots, |spots|) := b], Start(spots, k), more[k], k == 0, dbSize)
  {
    hide SpotOk; hide NoPhantom; hide Start; hide MagicAt; hide AllErased;
    if k < |spots| {
      SpotPlaced(d, spots, dbSize, k);
      StartsRise(spots, k, |spots|);
      SpotSame(d, d[Start(spots, |spots|) := b], Start(spots, k), spots[k], k == 0, dbSize);
    } else {
      SpeckOk(d[Start(spots, |spots|) := b], Start(spots, k), dbSize);
    }
  }

  lemma SpeckOk(d: Bytes, a: nat, dbSize: nat)
    requires a + KV_HDR <= |d|
    ensures SpotOk(d, a, Speck(1), false, dbSize)
  {
  }

  lemma SpeckPhantoms(d: Bytes, spots: seq<Spot>, b: bv8)
    requires NoPhantom(d, spots) && Start(spots, |spots|) < |d| && !InMagic(b)
    ensures NoPhantom(d[Start(spots, |spots|) := b], spots + [Speck(1)])
  {
    var e, more := d[Start(spots, |spots|) := b], spots + [Speck(1)];
    PhantomsElsewhere(d, spots, Start(spots, |spots|), b);
    hide MagicAt; hide Heads; hide Inside; hide InMagic; hide Start;
    forall a | SECTOR_HDR <= a && MagicAt(e, a) ensures Heads(more, a) || Inside(more, a) {
      HeadOrInside(e, spots, a);
      MoreSpots(spots, Speck(1), a);
    }
  }

  /** The last bytes of a record are those of its name and value; those before are never erased to the end. */
  lemma ImageEnd(status: nat, key: Key, value: Value)
    requires Encodable(key, value) && status < 8 && |value| < 0xFF00_0000
    ensures var image := Image(status, key, value);
            && |image| == KvLen(key, value)
            && image[KV_HDR - 1] != ERASED_BYTE
            && (|key| + |value| > 0 ==> image[|image| - 1] == (key + value)[|key| + |value| - 1])
  {
    ImageParts(status, key, value);
    hide Image; hide LowBits; hide Le32; hide WordBytes; hide RecordCrc;
    var rest := HeaderRest(key, value);
    assert rest[19] == Le32(|value|)[3] by { RestEnd(key, value); }
    TopByte(|value|);
    var image := [LowBits(status)] + (FF3 + rest + key + value);
    assert image[KV_HDR - 1] == rest[19];
  }

  lemma RestEnd(key: Key, value: Value)
    requires Encodable(key, value)
    ensures HeaderRest(key, value)[19] == Le32(|value|)[3]
  {
  }

  lemma TopByte(n: nat)
    requires n < 0xFF00_0000
    ensures Le32(n)[3] != ERASED_BYTE
  {
    ByteBack(n / 256 / 256 / 256);
    ByteBack(255);
  }

  // ---------------------------------------------------------------- the record that is lost

  /** A record as the set operation leaves it. */
  function Written(key: Key, value: Value): Bytes
    requires Encodable(key, value)
  {
    Image(WRITE.Rank(), key, value)
  }

  /** The last record of the sector is the image of this name and value. */
  predicate LastIs(d: Bytes, spots: seq<Spot>, key: Key, value: Value) {
    && spots != [] && Encodable(key, value) && |value| < 0xFF00_0000
    && spots[|spots| - 1] == Good(KvLen(key, value))
    && var a := Start(spots, |spots| - 1);
       a + KvLen(key, value) <= |d| && d[a..a + KvLen(key, value)] == Written(key, value)
  }

  predicate AllCounted(spots: seq<Spot>) { forall i :: 0 <= i < |spots| ==> Seen(spots, i) }

  /** The first byte of the next record destroys the last one if and only if a bare status byte has not been counted
      and the last record ends in an erased byte.  Otherwise it lands behind it. */
  lemma NextRecordLands(d: Bytes, spots: seq<Spot>, dbSize: nat, key: Key, value: Value, emptyKv: nat)
    requires Layout(d, spots, dbSize) && LastIs(d, spots, key, value) && Start(spots, |spots|) < |d|
    requires TailBegins(d, SECTOR_HDR + SeenBytes(spots, |spots|), |d|, emptyKv)
    ensures emptyKv < |d| && Start(spots, |spots| - 1) + KvLen(key, value) <= |d|
    ensures var a, len := Start(spots, |spots| - 1), KvLen(key, value);
            && CrcOk(d, a, len)
            && (CrcOk(d[emptyKv := BeginByte()], a, len) <==> AllCounted(spots) || EndsSolid(NewRec(key, value)))
            && (AllCounted(spots) || EndsSolid(NewRec(key, value)) ==> emptyKv == Start(spots, |spots|))
  {
    hide *;
    LastSpot(d, spots, dbSize, key, value);
    var a, len := Start(spots, |spots| - 1), KvLen(key, value);
    FreeSpaceExact(d, spots, dbSize, emptyKv);
    LastByte(d, a, key, value);
    TailFacts(d, emptyKv, SECTOR_HDR + SeenBytes(spots, |spots|), a);
    NotErased();
    if emptyKv < a + len {
      HitInside(d, a, len, emptyKv, BeginByte());
    } else {
      MissBehind(d, a, len, emptyKv, BeginByte());
    }
  }

  lemma LastSpot(d: Bytes, spots: seq<Spot>, dbSize: nat, key: Key, value: Value)
    requires Layout(d, spots, dbSize) && LastIs(d, spots, key, value)
    ensures spots != []
    ensures var a, len := Start(spots, |spots| - 1), KvLen(key, value);
            && a + KV_HDR <= a + len <= |d| && CrcOk(d, a, len) && a + len == Start(spots, |spots|)
            && Encodable(key, value) && |value| < 0xFF00_0000 && d[a..a + len] == Written(key, value)
    ensures (forall i :: 0 <= i < |spots| ==> Seen(spots, i)) <==> AllCounted(spots)
    ensures SECTOR_HDR > 0
  {
    hide NoPhantom; hide AllErased; hide CrcOk; hide MagicAt; hide LenOf; hide Image; hide Encodable; hide StatusOf;
    var k := |spots| - 1;
    SpotPlaced(d, spots, dbSize, k);
    StartLast(spots);
  }

  lemma LastByte(d: Bytes, a: nat, key: Key, value: Value)
    requires Encodable(key, value) && |value| < 0xFF00_0000 && a + KvLen(key, value) <= |d|
    requires d[a..a + KvLen(key, value)] == Written(key, value)
    ensures KvLen(key, value) >= KV_HDR > 0 && d[a + KV_HDR - 1] != ERASED_BYTE
    ensures d[a + KvLen(key, value) - 1] != ERASED_BYTE <==> EndsSolid(NewRec(key, value))
  {
    hide *;
    WrittenEnd(key, value);
    SolidMeans(key, value);
    var image := d[a..a + KvLen(key, value)];
    assert image[KV_HDR - 1] == d[a + KV_HDR - 1];
    assert image[|image| - 1] == d[a + |image| - 1];
  }

  lemma WrittenEnd(key: Key, value: Value)
    requires Encodable(key, value) && |value| < 0xFF00_0000
    ensures var image := Written(key, value);
            && |image| == KvLen(key, value) >= KV_HDR > 0 && image[KV_HDR - 1] != ERASED_BYTE
            && (|key| + |value| > 0 ==> image[|image| - 1] == (key + value)[|key| + |value| - 1])
            && (|key| + |value| == 0 ==> KvLen(key, value) == KV_HDR)
  {
    ImageEnd(WRITE.Rank(), key, value);
    hide Image; hide Encodable;
  }

  lemma SolidMeans(key: Key, value: Value)
    ensures EndsSolid(NewRec(key, value)) <==>
            |key| + |value| == 0 || (key + value)[|key| + |value| - 1] != ERASED_BYTE
  {
  }

  lemma TailFacts(d: Bytes, emptyKv: nat, counted: nat, a: nat)
    requires TailBegins(d, counted, |d|, emptyKv) && KV_HDR > 0 && a + KV_HDR <= |d| && d[a + KV_HDR - 1] != ERASED_BYTE
    ensures a + KV_HDR <= emptyKv <= |d| && (emptyKv < |d| ==> d[emptyKv] == ERASED_BYTE)
  {
  }

  lemma HitInside(d: Bytes, a: nat, len: nat, at: nat, b: bv8)
    requires a + KV_HDR <= a + len <= |d| && a + KV_HDR <= at < a + len && CrcOk(d, a, len)
    requires d[at] == ERASED_BYTE && b != ERASED_BYTE
    ensures !CrcOk(d[at := b], a, len)
  {
    hide CrcOk;
    DamageDetected(d, d[at := b], a, len, at, at + 1);
  }

  lemma MissBehind(d: Bytes, a: nat, len: nat, at: nat, b: bv8)
    requires a + KV_HDR <= a + len <= at < |d| && CrcOk(d, a, len)
    ensures CrcOk(d[at := b], a, len)
  {
    hide CrcOk; hide MagicAt; hide LenOf; hide StatusOf;
    FieldsSame(d, d[at := b], a, len);
  }

  /** A sector with one record, a cut right after the first byte of a second one, a reboot, a record written at the
      free address, another reboot. */
  function Bytes1(d: Bytes, ka: Key, va: Value): Bytes
    requires Encodable(ka, va) && SECTOR_HDR + KvLen(ka, va) < |d|
  {
    Splice(d, SECTOR_HDR, Written(ka, va))
  }

  function Bytes2(d: Bytes, ka: Key, va: Value): Bytes
    requires Encodable(ka, va) && SECTOR_HDR + KvLen(ka, va) < |d|
  {
    Bytes1(d, ka, va)[SECTOR_HDR + KvLen(ka, va) := BeginByte()]
  }

  function Bytes3(d: Bytes, ka: Key, va: Value, kb: Key, vb: Value): Bytes
    requires Encodable(ka, va) && Encodable(kb, vb) && SECTOR_HDR + KvLen(ka, va) + 1 + KvLen(kb, vb) < |d|
  {
    Splice(Bytes2(d, ka, va), SECTOR_HDR + KvLen(ka, va) + 1, Written(kb, vb))
  }

  function TwoSpots(la: nat): seq<Spot> { [Good(la), Speck(1)] }

  function ThreeSpots(la: nat, lb: nat): seq<Spot> { TwoSpots(la) + [Good(lb)] }

  lemma SpotSums(la: nat, lb: nat)
    ensures Start([], 0) == SECTOR_HDR && [] + [Good(la)] == [Good(la)] && [Good(la)] + [Speck(1)] == TwoSpots(la)
    ensures Start([Good(la)], 1) == SECTOR_HDR + la && Start(TwoSpots(la), 2) == SECTOR_HDR + la + 1
    ensures Start(ThreeSpots(la, lb), 2) == SECTOR_HDR + la + 1 && Start(ThreeSpots(la, lb), 3) == SECTOR_HDR + la + 1 + lb
    ensures SeenBytes(TwoSpots(la), 2) == la && SeenBytes(ThreeSpots(la, lb), 3) == la + lb
    ensures |[Good(la)]| == 1 && |TwoSpots(la)| == 2 && |ThreeSpots(la, lb)| == 3 && ThreeSpots(la, lb)[2] == Good(lb)
    ensures !AllCounted(ThreeSpots(la, lb)) && ThreeSpots(la, lb) != []
  {
    assert Start([Good(la)], 0) == SECTOR_HDR;
    assert Start(TwoSpots(la), 1) == SECTOR_HDR + la;
    assert Start(ThreeSpots(la, lb), 1) == SECTOR_HDR + la;
    assert !Seen(ThreeSpots(la, lb), 1);
    assert SeenBytes(TwoSpots(la), 1) == la && SeenBytes(ThreeSpots(la, lb), 1) == la && SeenBytes(ThreeSpots(la, lb), 2) == la;
  }

  /** The loss: the record set after the first reboot is in order until the next one is begun, and then it is in order
      exactly if it does not end in `0xFF`. */
  lemma BareByteCostsRecord(d: Bytes, dbSize: nat, ka: Key, va: Value, kb: Key, vb: Value, free2: nat, free3: nat)
    requires SECTOR_HDR <= |d| <= dbSize && AllErased(d, SECTOR_HDR, |d|)
    requires Encodable(ka, va) && Encodable(kb, vb) && |vb| < 0xFF00_0000
    requires SECTOR_HDR + KvLen(ka, va) + 1 + KvLen(kb, vb) + REMAIN_THRESHOLD < |d|
    requires TailBegins(Bytes2(d, ka, va), SECTOR_HDR + KvLen(ka, va), |d|, free2)
    requires TailBegins(Bytes3(d, ka, va, kb, vb), SECTOR_HDR + KvLen(ka, va) + KvLen(kb, vb), |d|, free3)
    // the traversals after both reboots count these bytes
    ensures Layout(Bytes2(d, ka, va), TwoSpots(KvLen(ka, va)), dbSize)
    ensures Layout(Bytes3(d, ka, va, kb, vb), ThreeSpots(KvLen(ka, va), KvLen(kb, vb)), dbSize)
    // the second record was written at the free address, and the third is begun at it
    ensures free2 == SECTOR_HDR + KvLen(ka, va) + 1 && free3 < |d|
    ensures var e, len := Bytes3(d, ka, va, kb, vb), KvLen(kb, vb);
            && free2 + KV_HDR <= free2 + len <= |d| && CrcOk(e, free2, len)
            && (CrcOk(e[free3 := BeginByte()], free2, len) <==> EndsSolid(NewRec(kb, vb)))
  {
    hide *;
    var la, lb := KvLen(ka, va), KvLen(kb, vb);
    SpotSums(la, lb);
    RoomFor(la, lb, |d|);
    FirstTwo(d, dbSize, ka, va, free2);
    ThirdOne(d, dbSize, ka, va, kb, vb);
    NextRecordLands(Bytes3(d, ka, va, kb, vb), ThreeSpots(la, lb), dbSize, kb, vb, free3);
    LastSpot(Bytes3(d, ka, va, kb, vb), ThreeSpots(la, lb), dbSize, kb, vb);
  }

  lemma RoomFor(la: nat, lb: nat, n: nat)
    requires SECTOR_HDR + la + 1 + lb + REMAIN_THRESHOLD < n
    ensures SECTOR_HDR + la + REMAIN_THRESHOLD < n && SECTOR_HDR + la + 1 + REMAIN_THRESHOLD < n
    ensures SECTOR_HDR + la + 1 + lb < n && SECTOR_HDR + la < n
  {
  }

  lemma FirstTwo(d: Bytes, dbSize: nat, ka: Key, va: Value, free2: nat)
    requires SECTOR_HDR <= |d| <= dbSize && AllErased(d, SECTOR_HDR, |d|) && Encodable(ka, va)
    requires SECTOR_HDR + KvLen(ka, va) + 1 + REMAIN_THRESHOLD < |d|
    requires TailBegins(Bytes2(d, ka, va), SECTOR_HDR + KvLen(ka, va), |d|, free2)
    ensures |Bytes2(d, ka, va)| == |d| && Layout(Bytes2(d, ka, va), TwoSpots(KvLen(ka, va)), dbSize)
    ensures free2 == SECTOR_HDR + KvLen(ka, va) + 1
  {
    hide Layout; hide Start; hide SeenBytes; hide TailBegins; hide BeginByte; hide Image; hide Splice; hide Encodable; hide Content;
    hide AllErased;
    var la := KvLen(ka, va);
    SpotSums(la, 0);
    FreshContent(d, dbSize);
    AppendKeepsContent(d, [], dbSize, ka, va);
    BeginKeepsContent(Bytes1(d, ka, va), [Good(la)], dbSize, free2);
  }

  lemma ThirdOne(d: Bytes, dbSize: nat, ka: Key, va: Value, kb: Key, vb: Value)
    requires Encodable(ka, va) && Encodable(kb, vb) && |vb| < 0xFF00_0000
    requires SECTOR_HDR + KvLen(ka, va) + 1 + KvLen(kb, vb) + REMAIN_THRESHOLD < |d|
    requires Layout(Bytes2(d, ka, va), TwoSpots(KvLen(ka, va)), dbSize)
    ensures var e, spots := Bytes3(d, ka, va, kb, vb), ThreeSpots(KvLen(ka, va), KvLen(kb, vb));
            |e| == |d| && Layout(e, spots, dbSize) && Start(spots, |spots|) < |e| && LastIs(e, spots, kb, vb)
  {
    hide Start; hide SeenBytes; hide BeginByte; hide Image; hide Splice; hide Encodable; hide Content; hide SpotOk;
    var la, lb, f := KvLen(ka, va), KvLen(kb, vb), Bytes2(d, ka, va);
    SpotSums(la, lb);
    AppendKeepsContent(f, TwoSpots(la), dbSize, kb, vb);
    hide Layout;
    Spliced(f, SECTOR_HDR + la + 1, Written(kb, vb));
  }

  lemma Spliced(d: Bytes, at: nat, buf: Bytes)
    requires at + |buf| <= |d|
    ensures |Splice(d, at, buf)| == |d| && Splice(d, at, buf)[at..at + |buf|] == buf
  {
  }

  // ---------------------------------------------------------------- records and bytes

  /** What lies in the sector, as records and as spots. */
  predicate Matches(r: Rec, s: Spot, first: bool) {
    && RecOk(r, first) && !s.Bad? && (s.Good? <==> r.crcOk) && (s.Speck? <==> !r.hdr)
    && s.len == if r.hdr then r.len else if first then KV_HDR else 1
  }

  predicate AllMatch(recs: seq<Rec>, spots: seq<Spot>) {
    |recs| == |spots| && forall i :: 0 <= i < |recs| ==> Matches(recs[i], spots[i], i == 0)
  }

  /** No record, complete or cut, has been put onto the end of another one. */
  predicate NoOverlap(recs: seq<Rec>) { forall i :: 0 <= i < |recs| && recs[i].hdr ==> Takes(recs[..i], recs[i]) }

  lemma OneMatch(recs: seq<Rec>, r: Rec, s: Spot)
    requires Matches(r, s, recs == []) && (r.hdr ==> Takes(recs, r))
    ensures Free(recs + [r]) == Free(recs) + s.len
    ensures Used(recs + [r]) == Used(recs) + if s.Speck? && recs != [] then 0 else s.len
  {
    SpaceGrows(recs, r);
    FreeGrows(recs, r);
    hide Free; hide Used; hide Takes; hide Prog; hide Trimmed; hide Tail;
    FreeOfNone();
  }

  lemma {:induction false} SpaceMatches(recs: seq<Rec>, spots: seq<Spot>, k: nat)
    requires AllMatch(recs, spots) && NoOverlap(recs) && k <= |recs|
    ensures Start(spots, k) == SECTOR_HDR + Free(recs[..k]) && SeenBytes(spots, k) == Used(recs[..k])
  {
    hide Free; hide Used; hide Takes; hide Matches; hide Prog; hide Tail;
    if k == 0 {
      FreeOfNone();
      assert recs[..0] == [];
    } else {
      SpaceMatches(recs, spots, k - 1);
      assert recs[..k] == recs[..k - 1] + [recs[k - 1]];
      assert recs[..k - 1] == [] <==> k == 1;
      BareHasNone(recs[k - 1], spots[k - 1], k == 1);
      OneMatch(recs[..k - 1], recs[k - 1], spots[k - 1]);
    }
  }

  lemma BareHasNone(r: Rec, s: Spot, first: bool)
    requires Matches(r, s, first)
    ensures s.Speck? <==> !r.hdr
  {
  }

  /** The free address of the record level is the one that a traversal of the bytes finds. */
  lemma FreeIsTail(d: Bytes, spots: seq<Spot>, dbSize: nat, recs: seq<Rec>, emptyKv: nat)
    requires Layout(d, spots, dbSize) && AllMatch(recs, spots) && NoOverlap(recs)
    requires TailBegins(d, SECTOR_HDR + SeenBytes(spots, |spots|), |d|, emptyKv)
    requires 0 < Start(spots, |spots|) <= |d|
    // the last byte of the last record is the one that its fields say
    requires d[Start(spots, |spots|) - 1] == ERASED_BYTE ==> spots[|spots| - 1].len > 1 && !EndsSolid(recs[|recs| - 1])
    ensures emptyKv == SECTOR_HDR + Free(recs)
  {
    hide *;
    LayoutEnd(d, spots, dbSize);
    MatchSize(d, spots, dbSize, recs);
    assert recs[..|recs|] == recs;
    SpaceMatches(recs, spots, |recs|);
    FreeSpaceExact(d, spots, dbSize, emptyKv);
    if d[Start(spots, |spots|) - 1] == ERASED_BYTE {
      LastCounted(recs, spots, |recs| - 1);
    }
  }

  lemma MatchSize(d: Bytes, spots: seq<Spot>, dbSize: nat, recs: seq<Rec>)
    requires Layout(d, spots, dbSize) && AllMatch(recs, spots)
    ensures |recs| == |spots| > 0
    ensures AllCounted(spots) <==> forall i :: 0 <= i < |spots| ==> Seen(spots, i)
  {
    hide Content;
  }

  lemma LastCounted(recs: seq<Rec>, spots: seq<Spot>, k: nat)
    requires AllMatch(recs, spots) && NoOverlap(recs) && k + 1 == |recs|
    requires spots[k].len > 1 && !EndsSolid(recs[k]) && forall i :: 0 <= i < |spots| ==> spots[i].len > 0
    ensures AllCounted(spots)
  {
    hide Free; hide Used;
    assert Matches(recs[k], spots[k], k == 0);
    SeenOrSpeck(spots, k);
    SpaceMatches(recs, spots, k);
    assert Seen(spots, k);
    if k > 0 {
      assert recs[k].hdr;
    }
    FreeOfNone();
    assert recs[..0] == [];
  }
}
