/**
 Numbers in memory, lowest byte first.
 */
module LittleEndian {
  const WORD_LIMIT: nat := 0x1_0000_0000

  lemma ByteUp(b: bv8)
    requires b as nat < 255
    ensures b != 0xFF && (b + 1) as nat == b as nat + 1
  {
  }

  function AsByte(n: nat): (b: bv8)
    requires n < 256
    ensures b as nat == n
  {
    if n == 0 then 0
    else
      var p := AsByte(n - 1);
      ByteUp(p);
      p + 1
  }

  function AsNat(b: bv8): nat { b as nat }

  lemma ByteBack(n: nat)
    requires n < 256
    ensures AsNat(AsByte(n)) == n
  {
  }

  function Le32(n: nat): (s: seq<bv8>)
    requires n < WORD_LIMIT
    ensures |s| == 4
  {
    var q1 := n / 256;
    var q2 := q1 / 256;
    [AsByte(n % 256), AsByte(q1 % 256), AsByte(q2 % 256), AsByte(q2 / 256)]
  }

  function FromLe32(s: seq<bv8>): nat
    requires |s| == 4
  {
    AsNat(s[0]) + 256 * (AsNat(s[1]) + 256 * (AsNat(s[2]) + 256 * AsNat(s[3])))
  }

  lemma Le32Back(n: nat)
    requires n < WORD_LIMIT
    ensures FromLe32(Le32(n)) == n
  {
    hide AsByte; hide AsNat;
    var q1 := n / 256;
    var q2 := q1 / 256;
    ByteBack(n % 256);
    ByteBack(q1 % 256);
    ByteBack(q2 % 256);
    ByteBack(q2 / 256);
  }
}
