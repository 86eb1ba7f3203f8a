/**
 The two scans over raw flash bytes: for the erased tail of a sector, and for the magic word of the next
 record.  Addresses are offsets in the sector.
 */
module FlashScan {
  import opened FdbDef
  import opened Wrappers

  const WINDOW: nat := 32
  const MAGIC_LEN: nat := 4
  const MAGIC_OFFSET: nat := 4
  /** `KV00`, the magic word of a record, lowest byte first. */
  const MAGIC: seq<bv8> := [0x4B, 0x56, 0x30, 0x30]

  predicate AllErased(flash: seq<bv8>, from: nat, to: nat) {
    forall o :: from <= o < to && o < |flash| ==> flash[o] == ERASED_BYTE
  }

  /** Where the erased tail of `flash[start..end]` begins: `end` if the last byte is programmed. */
  predicate TailBegins(flash: seq<bv8>, start: nat, end: nat, r: nat) {
    && start <= r <= end <= |flash|
    && AllErased(flash, r, end)
    && (r > start ==> flash[r - 1] != ERASED_BYTE)
  }

  lemma TailUnique(flash: seq<bv8>, start: nat, end: nat, r: nat, q: nat)
    requires TailBegins(flash, start, end, r) && TailBegins(flash, start, end, q)
    ensures r == q
  {
    assert forall o :: r <= o < end ==> flash[o] == ERASED_BYTE;
  }

  /** `_fdb_continue_ff_addr`: it reads the flash through a buffer of 32 bytes. */
  method ContinueFfAddr(flash: seq<bv8>, start: nat, end: nat) returns (r: nat)
    requires end <= |flash|
    ensures start <= end ==> TailBegins(flash, start, end, r)
    ensures start > end ==> r == end
  {
    var lastErased, addr, at := false, start, start;
    while at < end
      invariant start <= end ==> at <= end + WINDOW
      invariant var seen := if at < end then at else end;
                && start <= at && (at > start ==> start < end)
                && (lastErased ==> start <= addr < seen && TailBegins(flash, start, seen, addr))
                && (!lastErased && start < end ==> TailBegins(flash, start, seen, seen))
      decreases end + WINDOW - at
    {
      var size := if at + WINDOW < end then WINDOW else end - at;
      var buf := flash[at..at + size];
      for i := 0 to size
        invariant lastErased ==> start <= addr < at + i && TailBegins(flash, start, at + i, addr)
        invariant !lastErased ==> TailBegins(flash, start, at + i, at + i)
      {
        if !lastErased && buf[i] == ERASED_BYTE {
          addr := at + i;
        }
        lastErased := buf[i] == ERASED_BYTE;
      }
      at := at + WINDOW;
    }
    r := if lastErased then addr else end;
  }

  // ---------------------------------------------------------------- the magic word

  /** The header of a record at `a` carries the magic word. */
  predicate MagicAt(flash: seq<bv8>, a: nat) {
    var p := a + MAGIC_OFFSET;
    p + MAGIC_LEN <= |flash| && flash[p..p + MAGIC_LEN] == MAGIC
  }

  /** The scan looks for the magic word at the positions from `start` up to here. */
  function ScanLimit(start: nat, end: nat): (l: nat)
    ensures start <= l && (l > start ==> l < end) && l + WINDOW >= (if start + WINDOW < end then end else l)
    decreases end - start
  {
    if start + WINDOW < end then ScanLimit(start + (WINDOW - MAGIC_LEN), end) else start
  }

  /** A scan of the positions below `limit` would find a record at `a`. */
  predicate FoundAt(flash: seq<bv8>, a: nat, limit: nat) { a + MAGIC_OFFSET < limit && MagicAt(flash, a) }

  lemma SliceOfSlice(s: seq<bv8>, lo: nat, hi: nat, i: nat, j: nat)
    requires lo <= hi <= |s| && i <= j <= hi - lo
    ensures s[lo..hi][i..j] == s[lo + i..lo + j]
  {
    assert forall k :: 0 <= k < j - i ==> s[lo..hi][i..j][k] == s[lo + i..lo + j][k];
  }

  /** `find_next_kv_addr`: windows of 32 bytes that overlap by the length of the magic word.  Nothing is read if the
      search would begin at the free address that the sector cache has. */
  method FindNextKvAddr(flash: seq<bv8>, start: nat, end: nat, cachedEmpty: Option<nat>) returns (r: Option<nat>)
    requires end <= |flash|
    ensures r.Some? ==> start <= r.value && FoundAt(flash, r.value, ScanLimit(start, end))
    ensures cachedEmpty == Some(start) ==> r.None?
    ensures cachedEmpty != Some(start) ==>
              forall a :: start <= a && (r.Some? ==> a < r.value) ==> !FoundAt(flash, a, ScanLimit(start, end))
  {
    if cachedEmpty == Some(start) {
      return None;
    }
    var at := start;
    while at < end && at + WINDOW < end
      invariant start <= at && ScanLimit(at, end) == ScanLimit(start, end)
      invariant forall a :: start <= a && a + MAGIC_OFFSET < at ==> !MagicAt(flash, a)
    {
      var buf := flash[at..at + WINDOW];
      for i := 0 to WINDOW - MAGIC_LEN
        invariant forall a :: start <= a && a + MAGIC_OFFSET < at + i ==> !MagicAt(flash, a)
      {
        SliceOfSlice(flash, at, at + WINDOW, i, i + MAGIC_LEN);
        if buf[i..i + MAGIC_LEN] == MAGIC && at + i >= start + MAGIC_OFFSET {
          return Some(at + i - MAGIC_OFFSET);
        }
      }
      at := at + (WINDOW - MAGIC_LEN);
    }
    return None;
  }
}
