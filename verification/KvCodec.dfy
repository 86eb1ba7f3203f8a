/**
 A record as bytes: what `create_kv_blob` programs into erased flash, and what `read_kv` makes of it.
 Addresses are offsets into the flash of the database.
 */
module KvCodec {
  import opened Crc
  import opened FdbDef
  import opened FlashScan
  import opened KvFlash
  import opened LittleEndian
  import opened Status

  const FF3: Bytes := [0xFF, 0xFF, 0xFF]

  // ---------------------------------------------------------------- programming flash

  function AndBytes(d: Bytes, buf: Bytes): (r: Bytes)
    requires |d| == |buf|
    ensures |r| == |buf|
  {
    seq(|buf|, i requires 0 <= i < |buf| => Program(d[i], buf[i]))
  }

  function Splice(d: Bytes, at: nat, buf: Bytes): (r: Bytes)
    requires at + |buf| <= |d|
    ensures |r| == |d|
  {
    d[..at] + buf + d[at + |buf|..]
  }

  lemma AndErased(d: Bytes, buf: Bytes)
    requires |d| == |buf| && forall i :: 0 <= i < |d| ==> d[i] == ERASED_BYTE
    ensures AndBytes(d, buf) == buf
  {
  }

  /** Two adjacent splices are one. */
  lemma SpliceNext(d: Bytes, at: nat, p: Bytes, q: Bytes)
    requires at + |p| + |q| <= |d|
    ensures Splice(Splice(d, at, p), at + |p|, q) == Splice(d, at, p + q)
  {
  }

  /** Another splice at the same place replaces the first part of the one before. */
  lemma SpliceAgain(d: Bytes, at: nat, p: Bytes, p': Bytes, q: Bytes)
    requires at + |p| + |q| <= |d| && |p'| == |p|
    ensures Splice(Splice(d, at, p + q), at, p') == Splice(d, at, p' + q)
  {
  }

  /** Bytes that stay erased need no program. */
  lemma SpliceErased(d: Bytes, at: nat, p: Bytes, ff: Bytes, end: nat)
    requires at + |p| + |ff| <= end <= |d| && AllErased(d, at, end)
    requires forall i :: 0 <= i < |ff| ==> ff[i] == ERASED_BYTE
    ensures Splice(d, at, p) == Splice(d, at, p + ff)
  {
  }

  lemma ErasedBehind(d: Bytes, at: nat, p: Bytes, to: nat)
    requires at + |p| <= to <= |d| && AllErased(d, at, to)
    ensures AllErased(Splice(d, at, p), at + |p|, to)
  {
  }

  /** `_fdb_flash_write` on NOR flash. */
  method FlashWrite(dev: array<bv8>, at: nat, buf: Bytes)
    requires at + |buf| <= dev.Length
    modifies dev
    ensures dev[..] == Splice(old(dev[..]), at, AndBytes(old(dev[at..at + |buf|]), buf))
    ensures AllErased(old(dev[..]), at, at + |buf|) ==> dev[..] == Splice(old(dev[..]), at, buf)
  {
    ghost var was := dev[..];
    for i := 0 to |buf|
      invariant forall o :: 0 <= o < dev.Length ==>
                  dev[o] == if at <= o < at + i then Program(was[o], buf[o - at]) else was[o]
    {
      dev[at + i] := Program(dev[at + i], buf[i]);
    }
    if AllErased(was, at, at + |buf|) {
      AndErased(was[at..at + |buf|], buf);
    }
  }

  /** A program behind what has been programmed since `d0`. */
  method FlashWriteNext(dev: array<bv8>, at: nat, buf: Bytes, ghost d0: Bytes, ghost done: Bytes, ghost end: nat)
    requires |done| <= at && at + |buf| <= end <= |d0| && AllErased(d0, at - |done|, end)
    requires dev[..] == Splice(d0, at - |done|, done)
    modifies dev
    ensures dev[..] == Splice(d0, at - |done|, done + buf)
  {
    ErasedBehind(d0, at - |done|, done, end);
    SpliceNext(d0, at - |done|, done, buf);
    hide Splice;
    assert |dev[..]| == |d0|;
    FlashWrite(dev, at, buf);
  }

  lemma SpliceNone(d: Bytes, at: nat)
    requires at <= |d|
    ensures Splice(d, at, []) == d
  {
  }

  // ---------------------------------------------------------------- the record

  function LenOf(d: Bytes, a: nat): nat
    requires a + KV_HDR <= |d|
  {
    FromLe32(d[a + 8..a + 12])
  }

  function CrcOf(d: Bytes, a: nat): Word32
    requires a + KV_HDR <= |d|
  {
    Word(d[a + 12..a + 16])
  }

  function NameLenOf(d: Bytes, a: nat): nat
    requires a + KV_HDR <= |d|
  {
    AsNat(d[a + 16])
  }

  function ValueLenOf(d: Bytes, a: nat): nat
    requires a + KV_HDR <= |d|
  {
    FromLe32(d[a + 20..a + 24])
  }

  function StatusOf(d: Bytes, a: nat): nat
    requires a < |d|
  {
    Decoded([d[a]], 5)
  }

  /** The length field of a header can be right. */
  predicate LenOk(len: nat, dbSize: nat) { KV_HDR <= len <= dbSize && len != WORD_LIMIT - 1 }

  /** The name length word, the value length word, the name and the value: what the checksum covers. */
  function Covered(key: Key, value: Value): Bytes
    requires |key| <= NAME_MAX && |value| < WORD_LIMIT
  {
    [AsByte(|key|)] + FF3 + Le32(|value|) + key + value
  }

  function RecordCrc(key: Key, value: Value): Word32
    requires |key| <= NAME_MAX && |value| < WORD_LIMIT
  {
    Crc32(ZERO, Covered(key, value))
  }

  predicate Encodable(key: Key, value: Value) { |key| <= NAME_MAX && KvLen(key, value) < WORD_LIMIT - 1 }

  /** A record on the flash. */
  function Image(status: nat, key: Key, value: Value): (d: Bytes)
    requires Encodable(key, value) && status < 8
    ensures |d| == KvLen(key, value)
  {
    ([LowBits(status)] + FF3 + MAGIC + Le32(KvLen(key, value)) + WordBytes(RecordCrc(key, value)))
    + Covered(key, value)
  }

  datatype KvNode = KvNode(status: nat, len: nat, crcOk: bool, name: Key, valueAt: nat, valueLen: nat)

  /** What the code computes piece by piece, over header fields, name and value. */
  lemma CrcPieces(key: Key, value: Value)
    requires Encodable(key, value)
    ensures Crc32(Crc32(Crc32(Crc32(ZERO, [AsByte(|key|)] + FF3), Le32(|value|)), key), value) == RecordCrc(key, value)
  {
    hide Crc32; hide AsByte; hide Le32;
    var p, q := [AsByte(|key|)] + FF3, Le32(|value|);
    Piecewise(ZERO, p, q);
    Piecewise(ZERO, p + q, key);
    Piecewise(ZERO, p + q + key, value);
  }

  /** The header behind the status byte and its padding. */
  function HeaderRest(key: Key, value: Value): (r: Bytes)
    requires Encodable(key, value)
    ensures |r| == KV_HDR - MAGIC_OFFSET
  {
    MAGIC + Le32(KvLen(key, value)) + WordBytes(RecordCrc(key, value)) + [AsByte(|key|)] + FF3 + Le32(|value|)
  }

  lemma ImageParts(status: nat, key: Key, value: Value)
    requires Encodable(key, value) && status < 8
    ensures Image(status, key, value) == [LowBits(status)] + (FF3 + HeaderRest(key, value) + key + value)
  {
    hide RecordCrc; hide WordBytes; hide AsByte; hide Le32; hide LowBits;
  }

  lemma CommitStatus(d: Bytes, a: nat, q: Bytes)
    requires a + 1 + |q| <= |d|
    ensures var e := Splice(d, a, [LowBits(PRE_WRITE.Rank())] + q); var w := [LowBits(WRITE.Rank())];
            Splice(e, a, AndBytes(e[a..a + 1], w)) == Splice(d, a, w + q)
  {
    var p, w := [LowBits(PRE_WRITE.Rank())], [LowBits(WRITE.Rank())];
    var e := Splice(d, a, p + q);
    MaskOver(1, 2);
    assert e[a..a + 1] == p;
    assert AndBytes(p, w) == w;
    SpliceAgain(d, a, p, w, q);
  }

  /** `create_kv_blob` once it has its place. */
  method CreateRecord(dev: array<bv8>, a: nat, key: Key, value: Value)
    requires Encodable(key, value) && a + KvLen(key, value) <= dev.Length
    requires AllErased(dev[..], a, a + KvLen(key, value))
    modifies dev
    ensures dev[..] == Splice(old(dev[..]), a, Image(WRITE.Rank(), key, value))
  {
    hide Crc32; hide AsByte; hide Le32; hide WordBytes; hide AndBytes; hide Splice; hide Covered; hide LowBits;
    hide RecordCrc; hide Image;
    ghost var d0, end := dev[..], a + KvLen(key, value);
    var crc := CalcCrc32(ZERO, [AsByte(|key|)] + FF3);
    crc := CalcCrc32(crc, Le32(|value|));
    crc := CalcCrc32(crc, key);
    crc := CalcCrc32(crc, value);
    CrcPieces(key, value);
    SpliceNone(d0, a);
    var p := [LowBits(PRE_WRITE.Rank())];
    FlashWriteNext(dev, a, p, d0, [], end);
    assert [] + p == p;
    SpliceErased(d0, a, p, FF3, end);
    var rest := MAGIC + Le32(KvLen(key, value)) + WordBytes(crc) + [AsByte(|key|)] + FF3 + Le32(|value|);
    FlashWriteNext(dev, a + MAGIC_OFFSET, rest, d0, p + FF3, end);
    FlashWriteNext(dev, a + KV_HDR, key, d0, p + FF3 + rest, end);
    FlashWriteNext(dev, a + KV_HDR + |key|, value, d0, p + FF3 + rest + key, end);
    ghost var q := FF3 + rest + key + value;
    assert p + FF3 + rest + key + value == p + q;
    CommitStatus(d0, a, q);
    FlashWrite(dev, a, [LowBits(WRITE.Rank())]);
    ImageParts(WRITE.Rank(), key, value);
  }

  lemma SpliceOther(d: Bytes, at: nat, p: Bytes, lo: nat, hi: nat)
    requires at + |p| <= |d| && lo <= hi <= |d| && (hi <= at || at + |p| <= lo)
    ensures Splice(d, at, p)[lo..hi] == d[lo..hi]
  {
  }

  /** What the copy of a record has on the flash before its last status: the first `done` bytes behind the padding. */
  function Copied(d: Bytes, from: nat, done: nat): (c: Bytes)
    requires from + MAGIC_OFFSET + done <= |d|
    ensures |c| == MAGIC_OFFSET + done
  {
    [LowBits(PRE_WRITE.Rank())] + (FF3 + d[from + MAGIC_OFFSET..from + MAGIC_OFFSET + done])
  }

  lemma CopiedNone(d: Bytes, from: nat)
    requires from + MAGIC_OFFSET <= |d|
    ensures Copied(d, from, 0) == [LowBits(PRE_WRITE.Rank())] + FF3
  {
  }

  lemma CopiedNext(d: Bytes, from: nat, done: nat, size: nat)
    requires from + MAGIC_OFFSET + done + size <= |d|
    ensures Copied(d, from, done) + d[from + MAGIC_OFFSET + done..from + MAGIC_OFFSET + done + size] == Copied(d, from, done + size)
  {
    var at := from + MAGIC_OFFSET;
    assert d[at..at + done] + d[at + done..at + done + size] == d[at..at + done + size];
  }

  /** The copy that `move_kv` makes: a fresh status byte, and the rest through a buffer of 32 bytes. */
  method CopyRecord(dev: array<bv8>, from: nat, to: nat, len: nat)
    requires len >= KV_HDR && to + len <= dev.Length && from + len <= dev.Length && (from + len <= to || to + len <= from)
    requires AllErased(dev[..], to, to + len)
    modifies dev
    ensures dev[..] == Splice(old(dev[..]), to, [LowBits(WRITE.Rank())] + (FF3 + old(dev[from + MAGIC_OFFSET..from + len])))
  {
    hide *;
    ghost var d0, end := dev[..], to + len;
    Sizes();
    CopiedNone(d0, from);
    SpliceNone(d0, to);
    var p := [LowBits(PRE_WRITE.Rank())];
    FlashWriteNext(dev, to, p, d0, [], end);
    assert [] + p == p;
    SpliceErased(d0, to, p, FF3, end);
    var done, total := 0, len - MAGIC_OFFSET;
    while done < total
      invariant done <= total && |dev[..]| == |d0| && dev[..] == Splice(d0, to, Copied(d0, from, done))
    {
      var size := if done + WINDOW < total then WINDOW else total - done;
      var at := from + MAGIC_OFFSET + done;
      SpliceOther(d0, to, Copied(d0, from, done), at, at + size);
      FlashWriteNext(dev, to + MAGIC_OFFSET + done, dev[at..at + size], d0, Copied(d0, from, done), end);
      CopiedNext(d0, from, done, size);
      done := done + size;
    }
    WholeCopy(d0, from, len);
    CommitStatus(d0, to, FF3 + d0[from + MAGIC_OFFSET..from + len]);
    FlashWrite(dev, to, [LowBits(WRITE.Rank())]);
  }

  lemma Sizes()
    ensures MAGIC_OFFSET == 4 && WINDOW == 32 && KV_HDR == 24 && |FF3| == 3 && FF3 == [0xFF, 0xFF, 0xFF] && ERASED_BYTE == 0xFF
    ensures PRE_WRITE.Rank() == 1 && WRITE.Rank() == 2 && ERR_HDR.Rank() == 5
  {
  }

  lemma WholeCopy(d: Bytes, from: nat, len: nat)
    requires len >= KV_HDR && from + len <= |d|
    ensures Copied(d, from, len - MAGIC_OFFSET) == [LowBits(PRE_WRITE.Rank())] + (FF3 + d[from + MAGIC_OFFSET..from + len])
  {
    hide LowBits;
  }

  lemma BehindPadding(d: Bytes, from: nat, x: bv8, rest: Bytes)
    requires from + 1 + |rest| <= |d| && |rest| >= 3 && rest[..3] == FF3 && d[from..from + 1 + |rest|] == [x] + rest
    ensures FF3 + d[from + MAGIC_OFFSET..from + 1 + |rest|] == rest
  {
    hide *;
    Sizes();
    SliceOfSlice(d, from, from + 1 + |rest|, 4, 1 + |rest|);
    assert ([x] + rest)[4..1 + |rest|] == rest[3..];
    assert rest[..3] + rest[3..] == rest;
  }

  /** The copy of a record that is about to be deleted is the same record, live. */
  lemma CopyIsRecord(d: Bytes, from: nat, key: Key, value: Value)
    requires Encodable(key, value) && from + KvLen(key, value) <= |d|
    requires d[from..from + KvLen(key, value)] == Image(PRE_DELETE.Rank(), key, value)
    ensures [LowBits(WRITE.Rank())] + (FF3 + d[from + MAGIC_OFFSET..from + KvLen(key, value)]) == Image(WRITE.Rank(), key, value)
  {
    hide Image; hide HeaderRest; hide LowBits;
    var rest := FF3 + HeaderRest(key, value) + key + value;
    ImageParts(PRE_DELETE.Rank(), key, value);
    ImageParts(WRITE.Rank(), key, value);
    assert rest[..3] == FF3;
    BehindPadding(d, from, LowBits(PRE_DELETE.Rank()), rest);
  }

  // ---------------------------------------------------------------- reading

  predicate CrcOk(d: Bytes, a: nat, len: nat)
    requires a + KV_HDR <= a + len <= |d|
  {
    Crc32(ZERO, d[a + 16..a + len]) == CrcOf(d, a)
  }

  /** The loop of `read_kv` over name and value, through a buffer of 32 bytes. */
  method CrcOfBody(d: Bytes, a: nat, len: nat, crc: Word32) returns (r: Word32)
    requires a + KV_HDR <= a + len <= |d|
    ensures r == Crc32(crc, d[a + KV_HDR..a + len])
  {
    hide Crc32;
    var dataLen, done := len - KV_HDR, 0;
    r := crc;
    CrcNothing(crc);
    while done < dataLen
      invariant done <= dataLen && r == Crc32(crc, d[a + KV_HDR..a + KV_HDR + done])
    {
      var size := if done + WINDOW < dataLen then WINDOW else dataLen - done;
      var at := a + KV_HDR + done;
      var buf := d[at..at + size];
      Piecewise(crc, d[a + KV_HDR..at], buf);
      assert d[a + KV_HDR..at] + buf == d[a + KV_HDR..at + size];
      r := CalcCrc32(r, buf);
      done := done + size;
    }
  }

  lemma CrcNothing(crc: Word32)
    ensures forall d: Bytes, i: nat :: i <= |d| ==> Crc32(crc, d[i..i]) == crc
  {
    forall d: Bytes, i: nat | i <= |d| ensures Crc32(crc, d[i..i]) == crc {
      assert d[i..i] == [];
      XorUndoes(crc, ONES);
    }
  }

  /** `read_kv` for a record that lies in the flash, or has no length that could be right. */
  method ReadKv(dev: array<bv8>, a: nat, dbSize: nat) returns (node: KvNode)
    requires a + KV_HDR <= dev.Length
    requires LenOk(LenOf(dev[..], a), dbSize) ==> a + LenOf(dev[..], a) <= dev.Length
    modifies dev
    ensures var d, len := old(dev[..]), LenOf(old(dev[..]), a);
            if LenOk(len, dbSize) then
              && dev[..] == d && node.status == StatusOf(d, a) && node.len == len && node.crcOk == CrcOk(d, a, len)
              && (node.crcOk && NameLenOf(d, a) <= len - KV_HDR ==>
                    node == KvNode(StatusOf(d, a), len, true, ReadName(d[a + KV_HDR..a + KV_HDR + NameLenOf(d, a)]),
                                   a + KV_HDR + NameLenOf(d, a), ValueLenOf(d, a)))
            else
              && node == KvNode(ERR_HDR.Rank(), KV_HDR, false, [], 0, 0)
              && dev[..] == if StatusOf(d, a) == ERR_HDR.Rank() then d else d[a := Program(d[a], LowBits(ERR_HDR.Rank()))]
  {
    hide *;
    var d := dev[..];
    Sizes();
    HeaderReads(d, a, dbSize);
    var status := GetStatus([d[a]], 6);
    var len := FromLe32(d[a + 8..a + 12]);
    if len == WORD_LIMIT - 1 || len > dbSize || len < KV_HDR {
      if status != ERR_HDR.Rank() {
        FlashWrite(dev, a, [LowBits(ERR_HDR.Rank())]);
        OneByteProgram(d, a, LowBits(ERR_HDR.Rank()));
      }
      return KvNode(ERR_HDR.Rank(), KV_HDR, false, [], 0, 0);
    }
    var crc := CalcCrc32(ZERO, d[a + 16..a + 20]);
    crc := CalcCrc32(crc, d[a + 20..a + 24]);
    crc := CrcOfBody(d, a, len, crc);
    ReadPieces(d, a, len);
    CrcOkIs(d, a, len);
    if crc != Word(d[a + 12..a + 16]) {
      return KvNode(status, len, false, [], 0, 0);
    }
    var nameLen := AsNat(d[a + 16]);
    var name := if nameLen <= len - KV_HDR then ReadName(d[a + KV_HDR..a + KV_HDR + nameLen]) else [];
    node := KvNode(status, len, true, name, a + KV_HDR + nameLen, FromLe32(d[a + 20..a + 24]));
  }

  lemma HeaderReads(d: Bytes, a: nat, dbSize: nat)
    requires a + KV_HDR <= |d|
    ensures a + 24 <= |d| && StatusOf(d, a) == Decoded([d[a]], 5)
    ensures LenOf(d, a) == FromLe32(d[a + 8..a + 12]) && CrcOf(d, a) == Word(d[a + 12..a + 16])
    ensures NameLenOf(d, a) == AsNat(d[a + 16]) && ValueLenOf(d, a) == FromLe32(d[a + 20..a + 24])
    ensures LenOk(LenOf(d, a), dbSize) <==> !(LenOf(d, a) == WORD_LIMIT - 1 || LenOf(d, a) > dbSize || LenOf(d, a) < KV_HDR)
    ensures WORD_LIMIT > 0
  {
  }

  lemma CrcOkIs(d: Bytes, a: nat, len: nat)
    requires a + KV_HDR <= a + len <= |d|
    ensures a + 16 <= a + len && CrcOk(d, a, len) == (Crc32(ZERO, d[a + 16..a + len]) == CrcOf(d, a))
  {
  }

  lemma OneByteProgram(d: Bytes, a: nat, b: bv8)
    requires a < |d|
    ensures Splice(d, a, AndBytes(d[a..a + |[b]|], [b])) == d[a := Program(d[a], b)]
  {
  }

  lemma ReadPieces(d: Bytes, a: nat, len: nat)
    requires a + KV_HDR <= a + len <= |d|
    ensures Crc32(Crc32(Crc32(ZERO, d[a + 16..a + 20]), d[a + 20..a + 24]), d[a + KV_HDR..a + len]) == Crc32(ZERO, d[a + 16..a + len])
  {
    hide Crc32;
    Piecewise(ZERO, d[a + 16..a + 20], d[a + 20..a + 24]);
    assert d[a + 16..a + 20] + d[a + 20..a + 24] == d[a + 16..a + 24];
    Piecewise(ZERO, d[a + 16..a + 24], d[a + KV_HDR..a + len]);
    assert d[a + 16..a + 24] + d[a + KV_HDR..a + len] == d[a + 16..a + len];
  }

  // ---------------------------------------------------------------- round trip

  lemma ImageHeader(status: nat, key: Key, value: Value)
    requires Encodable(key, value) && status < 8
    ensures var m := Image(status, key, value);
            && m[0] == LowBits(status) && m[4..8] == MAGIC && m[8..12] == Le32(KvLen(key, value))
            && m[12..16] == WordBytes(RecordCrc(key, value)) && m[16..] == Covered(key, value)
  {
    hide RecordCrc; hide WordBytes; hide Covered; hide Le32; hide LowBits;
    var m, crc := Image(status, key, value), WordBytes(RecordCrc(key, value));
    var front := [LowBits(status)] + FF3 + MAGIC + Le32(KvLen(key, value));
    assert |Covered(key, value)| == KvLen(key, value) - 16 by {
      assert m[16..] == Covered(key, value);
    }
    assert front[4..8] == MAGIC && front[8..12] == Le32(KvLen(key, value));
    assert m[..12] == front;
    assert m[4..8] == m[..12][4..8] && m[8..12] == m[..12][8..12];
    assert m[12..16] == crc;
  }

  lemma CoveredParts(key: Key, value: Value)
    requires Encodable(key, value)
    ensures var c := Covered(key, value);
            && |c| == KvLen(key, value) - 16 && c[0] == AsByte(|key|) && c[4..8] == Le32(|value|)
            && c[8..8 + |key|] == key && c[8 + |key|..] == value
  {
    hide AsByte; hide Le32;
    var c := Covered(key, value);
    var front := [AsByte(|key|)] + FF3 + Le32(|value|);
    assert c == front + key + value;
    assert front[4..8] == Le32(|value|) && c[..8] == front;
    assert c[4..8] == c[..8][4..8];
  }

  lemma Field(d: Bytes, b: nat, c: Bytes, i: nat, j: nat)
    requires b + |c| <= |d| && d[b..b + |c|] == c && i <= j <= |c|
    ensures d[b + i..b + j] == c[i..j] && (i < |c| ==> d[b + i] == c[i])
  {
    SliceOfSlice(d, b, b + |c|, i, j);
    assert i < |c| ==> d[b + i] == d[b..b + |c|][i];
  }

  lemma HeaderFields(d: Bytes, a: nat, status: nat, key: Key, value: Value)
    requires Encodable(key, value) && status < 8
    requires a + KvLen(key, value) <= |d| && d[a..a + KvLen(key, value)] == Image(status, key, value)
    ensures d[a] == LowBits(status) && d[a + 4..a + 8] == MAGIC && d[a + 8..a + 12] == Le32(KvLen(key, value))
    ensures d[a + 12..a + 16] == WordBytes(RecordCrc(key, value)) && d[a + 16..a + KvLen(key, value)] == Covered(key, value)
  {
    hide Image; hide Covered; hide WordBytes; hide RecordCrc; hide Le32; hide LowBits;
    var m := Image(status, key, value);
    ImageHeader(status, key, value);
    Field(d, a, m, 0, 4);
    Field(d, a, m, 4, 8);
    Field(d, a, m, 8, 12);
    Field(d, a, m, 12, 16);
    Field(d, a, m, 16, |m|);
  }

  lemma CoveredFields(d: Bytes, b: nat, key: Key, value: Value)
    requires Encodable(key, value)
    requires b + KvLen(key, value) - 16 <= |d| && d[b..b + KvLen(key, value) - 16] == Covered(key, value)
    ensures d[b] == AsByte(|key|) && d[b + 4..b + 8] == Le32(|value|)
    ensures d[b + 8..b + 8 + |key|] == key && d[b + 8 + |key|..b + KvLen(key, value) - 16] == value
  {
    hide Covered; hide AsByte; hide Le32;
    CoveredParts(key, value);
    FourFields(d, b, Covered(key, value), |key|);
  }

  lemma FourFields(d: Bytes, b: nat, c: Bytes, k: nat)
    requires b + |c| <= |d| && d[b..b + |c|] == c && 8 + k <= |c|
    ensures d[b] == c[0] && d[b + 4..b + 8] == c[4..8]
    ensures d[b + 8..b + 8 + k] == c[8..8 + k] && d[b + 8 + k..b + |c|] == c[8 + k..]
  {
    hide *;
    Field(d, b, c, 0, 4);
    Field(d, b, c, 4, 8);
    Field(d, b, c, 8, 8 + k);
    Field(d, b, c, 8 + k, |c|);
    assert c[8 + k..|c|] == c[8 + k..];
  }

  /** What has been written as a record is read as that record. */
  lemma RoundTrip(d: Bytes, a: nat, status: nat, key: Key, value: Value)
    requires Encodable(key, value) && status < 6
    requires a + KvLen(key, value) <= |d| && d[a..a + KvLen(key, value)] == Image(status, key, value)
    ensures StatusOf(d, a) == status && LenOf(d, a) == KvLen(key, value) && CrcOk(d, a, KvLen(key, value))
    ensures forall dbSize: nat :: LenOk(LenOf(d, a), dbSize) <==> KvLen(key, value) <= dbSize
    ensures NameLenOf(d, a) == |key| && ValueLenOf(d, a) == |value| && MagicAt(d, a)
    ensures d[a + KV_HDR..a + KV_HDR + |key|] == key
    ensures d[a + KV_HDR + |key|..a + KvLen(key, value)] == value
  {
    hide Crc32; hide AsByte; hide Le32; hide WordBytes; hide FromLe32; hide Word; hide AsNat; hide LowBits; hide Decoded;
    hide Image; hide Covered; hide Encoded;
    HeaderFields(d, a, status, key, value);
    CoveredFields(d, a + 16, key, value);
    Le32Back(KvLen(key, value));
    WordBack(RecordCrc(key, value));
    ByteBack(|key|);
    Le32Back(|value|);
    OneByte(6, status);
    StatusReadsBack(6, status);
  }

  lemma SameOutsideAndIn(d: Bytes, e: Bytes, lo: nat, hi: nat)
    requires |d| == |e| && lo <= hi <= |d| && d[lo..hi] == e[lo..hi]
    requires forall o :: 0 <= o < |d| && !(lo <= o < hi) ==> e[o] == d[o]
    ensures d == e
  {
    assert forall o :: lo <= o < hi ==> d[o] == d[lo..hi][o - lo] && e[o] == e[lo..hi][o - lo];
  }

  /** Damage within four consecutive bytes behind the checksum field is always noticed. */
  lemma DamageDetected(d: Bytes, e: Bytes, a: nat, len: nat, lo: nat, hi: nat)
    requires |d| == |e| && a + KV_HDR <= a + len <= |d| && a + 16 <= lo <= hi <= a + len && hi - lo <= 4
    requires forall o :: 0 <= o < |d| && !(lo <= o < hi) ==> e[o] == d[o]
    requires e != d && CrcOk(d, a, len)
    ensures LenOf(e, a) == LenOf(d, a) && !CrcOk(e, a, len)
  {
    hide Crc32; hide Word; hide FromLe32;
    var before, u, v, after := d[a + 16..lo], d[lo..hi], e[lo..hi], d[hi..a + len];
    assert d[a + 16..a + len] == before + u + after;
    assert e[a + 16..a + len] == before + v + after;
    assert e[a + 8..a + 12] == d[a + 8..a + 12] && e[a + 12..a + 16] == d[a + 12..a + 16];
    if u == v {
      SameOutsideAndIn(d, e, lo, hi);
      assert false;
    }
    BurstChangesCrc(ZERO, before, u, v, after);
  }
}
