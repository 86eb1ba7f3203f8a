/**
 Status tables with a write granularity of one bit: a status is written by clearing leading bits of the
 table, so a later status can be programmed over an earlier one without an erase.
 */
module Status {
  import opened FdbDef
  import opened Wrappers

  function TableSize(num: nat): nat { (num + 7) / 8 }

  /** `0x00ff >> k`. */
  function LowBits(k: nat): bv8
    requires k < 8
  {
    match k
    case 0 => 0xFF
    case 1 => 0x7F
    case 2 => 0x3F
    case 3 => 0x1F
    case 4 => 0x0F
    case 5 => 0x07
    case 6 => 0x03
    case _ => 0x01
  }

  /** `0x80 >> k`. */
  function OneBit(k: nat): bv8
    requires k < 8
  {
    match k
    case 0 => 0x80
    case 1 => 0x40
    case 2 => 0x20
    case 3 => 0x10
    case 4 => 0x08
    case 5 => 0x04
    case 6 => 0x02
    case _ => 0x01
  }

  predicate Cleared(b: bv8, k: nat)
    requires k < 8
  {
    b & OneBit(k) == 0
  }

  /** Bit `j` of a table is cleared, counted from the top bit of its first byte. */
  predicate BitCleared(t: seq<bv8>, j: nat)
    requires j < 8 * |t|
  {
    Cleared(t[j / 8], j % 8)
  }

  /** The table that the code builds for status `index` of `num`. */
  function Encoded(num: nat, index: nat): (t: seq<bv8>)
    ensures |t| == TableSize(num)
  {
    seq(TableSize(num), b => if index > 0 && b == (index - 1) / 8 then LowBits(index % 8) else ERASED_BYTE)
  }

  /** The status a table stands for: the number of bits up to the last cleared one among the first `bits`. */
  function Decoded(t: seq<bv8>, bits: nat): (r: nat)
    requires bits <= 8 * |t|
    ensures r <= bits
    ensures r > 0 ==> BitCleared(t, r - 1)
    ensures forall j :: r <= j < bits ==> !BitCleared(t, j)
  {
    if bits == 0 then 0
    else if BitCleared(t, bits - 1) then bits
    else Decoded(t, bits - 1)
  }

  lemma DecodedStep(t: seq<bv8>, bits: nat)
    requires 0 < bits <= 8 * |t|
    ensures Decoded(t, bits) == if BitCleared(t, bits - 1) then bits else Decoded(t, bits - 1)
    ensures Decoded(t, 0) == 0
  {
  }

  /** `_fdb_set_status`; the result is the byte to program, if there is any. */
  method SetStatus(table: array<bv8>, num: nat, index: nat) returns (byteIndex: Option<nat>)
    requires index < num && TableSize(num) <= table.Length
    modifies table
    ensures table[..TableSize(num)] == Encoded(num, index)
    ensures table[TableSize(num)..] == old(table[TableSize(num)..])
    ensures byteIndex == if index == 0 then None else Some((index - 1) / 8)
  {
    for i := 0 to TableSize(num)
      invariant forall j :: 0 <= j < i ==> table[j] == ERASED_BYTE
      invariant forall j :: i <= j < table.Length ==> table[j] == old(table[j])
    {
      table[i] := ERASED_BYTE;
    }
    byteIndex := None;
    if index > 0 {
      var b := (index - 1) / 8;
      byteIndex := Some(b);
      AndErased(index % 8);
      table[b] := table[b] & LowBits(index % 8);
    }
  }

  lemma AndErased(k: nat)
    requires k < 8
    ensures ERASED_BYTE & LowBits(k) == LowBits(k)
  {
  }

  /** `_fdb_get_status`. */
  method GetStatus(table: seq<bv8>, num: nat) returns (r: nat)
    requires 0 < num <= 8 * |table|
    ensures r == Decoded(table, num - 1)
  {
    hide Decoded;
    var i, left := 0, num - 1;
    while left > 0
      invariant i + left == num - 1 && Decoded(table, num - 1) == Decoded(table, left)
    {
      DecodedStep(table, left);
      left := left - 1;
      if table[left / 8] & OneBit(left % 8) == 0 {
        break;
      }
      i := i + 1;
    }
    r := num - 1 - i;
  }

  lemma ClearedIn(k: nat, j: nat)
    requires k < 8 && j < 8
    ensures Cleared(LowBits(k), j) <==> j < k
  {
  }

  /** Which bits of an encoded table are cleared. */
  lemma EncodedBit(num: nat, index: nat, j: nat)
    requires index < num && j < 8 * TableSize(num)
    ensures BitCleared(Encoded(num, index), j)
            <==> index > 0 && j / 8 == (index - 1) / 8 && j % 8 < index % 8
  {
    ClearedIn(0, j % 8);
    ClearedIn(index % 8, j % 8);
  }

  lemma SameByte(index: nat, j: nat)
    requires index > 0
    ensures j / 8 == (index - 1) / 8 && j % 8 < index % 8 ==> j < index && index % 8 != 0
    ensures index % 8 != 0 ==> (index - 1) % 8 < index % 8
  {
  }

  lemma LastBit(num: nat, index: nat, j: nat)
    requires index < num && j < 8 * TableSize(num)
    ensures index % 8 == 0 || j >= index ==> !BitCleared(Encoded(num, index), j)
    ensures index % 8 != 0 && j == index - 1 ==> BitCleared(Encoded(num, index), j)
  {
    EncodedBit(num, index, j);
    if index > 0 {
      hide Encoded; hide BitCleared;
      SameByte(index, j);
    }
  }

  lemma TableHolds(num: nat)
    ensures num <= 8 * TableSize(num)
  {
  }

  /** The status that is read back after writing `index`: it itself, unless it is a multiple of eight, for
      which the code clears no bit at all. */
  lemma StatusReadsBack(num: nat, index: nat)
    requires index < num
    ensures num - 1 <= 8 * TableSize(num)
    ensures Decoded(Encoded(num, index), num - 1) == if index % 8 == 0 then 0 else index
    ensures Decoded(Encoded(num, index), num - 1) == index <==> index == 0 || index % 8 != 0
  {
    hide *;
    TableHolds(num);
    var t := Encoded(num, index);
    var r := Decoded(t, num - 1);
    if index > 0 {
      LastBit(num, index, index - 1);
    }
    if r > 0 {
      LastBit(num, index, r - 1);
    }
  }

  // ---------------------------------------------------------------- programming over an earlier status

  /** A NOR device: a program clears bits and never sets any. */
  function Program(was: bv8, data: bv8): bv8 { was & data }

  lemma MaskOver(i: nat, j: nat)
    requires i < 8 && j < 8
    ensures Program(LowBits(i), LowBits(j)) == LowBits(if i < j then j else i)
  {
  }

  lemma LowBitsDiffer(i: nat, j: nat)
    requires i < 8 && j < 8
    ensures LowBits(i) == LowBits(j) <==> i == j
  {
  }

  /** A device that simply overwrites behaves like NOR flash exactly if the status does not fall. */
  lemma OverwriteIsProgram(i: nat, j: nat)
    requires i < 8 && j < 8
    ensures Program(LowBits(i), LowBits(j)) == LowBits(j) <==> i <= j
  {
    MaskOver(i, j);
    LowBitsDiffer(if i < j then j else i, j);
  }

  function Max(s: seq<nat>): (m: nat)
    ensures forall i :: 0 <= i < |s| ==> s[i] <= m
    ensures m == 0 || m in s
  {
    if s == [] then 0
    else
      var m := Max(s[..|s| - 1]);
      if s[|s| - 1] > m then s[|s| - 1] else m
  }

  /** The status byte after these statuses have been programmed, in this order, onto an erased byte. */
  function Written(s: seq<nat>): bv8
    requires forall i :: 0 <= i < |s| ==> s[i] < 8
  {
    if s == [] then ERASED_BYTE else Program(Written(s[..|s| - 1]), LowBits(s[|s| - 1]))
  }

  /** A status field of at most eight statuses reads as the greatest one written since its erase. */
  lemma {:induction false} ReadsAsMaximum(num: nat, s: seq<nat>)
    requires 0 < num <= 8 && forall i :: 0 <= i < |s| ==> s[i] < num
    ensures Written(s) == LowBits(Max(s)) && Decoded([Written(s)], num - 1) == Max(s)
  {
    assert LowBits(0) == ERASED_BYTE;
    hide Decoded; hide LowBits; hide Encoded;
    if s != [] {
      ReadsAsMaximum(num, s[..|s| - 1]);
      MaskOver(Max(s[..|s| - 1]), s[|s| - 1]);
    }
    var m := Max(s);
    OneByte(num, m);
    StatusReadsBack(num, m);
  }

  lemma OneByte(num: nat, m: nat)
    requires m < num <= 8
    ensures Encoded(num, m) == [LowBits(m)]
  {
  }
}
