/** How the programs' integers lie in memory. */
module LittleEndian {
  import opened Words

  /** Little-endian 32-bit words, least significant byte first. */
  function Bytes4(x: u32): (s: seq<byte>)
    ensures |s| == 4
  {
    [x % 256, x / 256 % 256, x / 256 / 256 % 256, x / 256 / 256 / 256]
  }

  function Value4(s: seq<byte>): u32
    requires |s| == 4
  {
    var b0: int, b1: int, b2: int, b3: int := s[0], s[1], s[2], s[3];
    b0 + 0x100 * b1 + 0x1_0000 * b2 + 0x100_0000 * b3
  }

  /** A 64-bit word is its low half and its high half. */
  function Bytes8(x: u64): (s: seq<byte>)
    ensures |s| == 8
  {
    Bytes4(x % 0x1_0000_0000) + Bytes4(x / 0x1_0000_0000)
  }

  function Value8(s: seq<byte>): u64
    requires |s| == 8
  {
    var low: int, high: int := Value4(s[..4]), Value4(s[4..]);
    low + 0x1_0000_0000 * high
  }

  lemma Value4OfBytes(x: u32)
    ensures Value4(Bytes4(x)) == x
  {
  }

  lemma Value8OfBytes(x: u64)
    ensures Value8(Bytes8(x)) == x
  {
    var b := Bytes8(x);
    assert b[..4] == Bytes4(x % 0x1_0000_0000) && b[4..] == Bytes4(x / 0x1_0000_0000);
    Value4OfBytes(x % 0x1_0000_0000);
    Value4OfBytes(x / 0x1_0000_0000);
  }

  lemma Value4IsZero(s: seq<byte>)
    requires |s| == 4
    ensures Value4(s) == 0 <==> s[0] == 0 && s[1] == 0 && s[2] == 0 && s[3] == 0
  {
  }

  lemma Value8IsZero(s: seq<byte>)
    requires |s| == 8
    ensures Value8(s) == 0 <==> forall i | 0 <= i < 8 :: s[i] == 0
  {
    var low, high := s[..4], s[4..];
    Value4IsZero(low);
    Value4IsZero(high);
    assert low[0] == s[0] && low[1] == s[1] && low[2] == s[2] && low[3] == s[3];
    assert high[0] == s[4] && high[1] == s[5] && high[2] == s[6] && high[3] == s[7];
  }
}
