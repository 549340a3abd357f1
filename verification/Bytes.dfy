/** Machine integers and byte strings shared by the models. */
module Bytes {

  newtype u8 = x: int | 0 <= x < 0x100
  newtype u16 = x: int | 0 <= x < 0x1_0000
  newtype u64 = x: int | 0 <= x < 0x1_0000_0000_0000_0000

  const U64_MAX: u64 := 0xFFFF_FFFF_FFFF_FFFF

  type bytes = seq<u8>

  // ----- Little-endian words -----

  function LittleEndian(value: nat, width: nat): (s: bytes)
    ensures |s| == width
  {
    if width == 0 then [] else [(value % 0x100) as u8] + LittleEndian(value / 0x100, width - 1)
  }

  function LittleEndianRange(width: nat): nat {
    if width == 0 then 1 else 0x100 * LittleEndianRange(width - 1)
  }

  lemma {:induction false} LittleEndianInjective(a: nat, b: nat, width: nat)
    requires a < LittleEndianRange(width) && b < LittleEndianRange(width) && LittleEndian(a, width) == LittleEndian(b, width)
    ensures a == b
  {
    if width > 0 {
      assert LittleEndian(a, width)[0] == (a % 0x100) as u8 && LittleEndian(b, width)[0] == (b % 0x100) as u8;
      assert LittleEndian(a, width)[1..] == LittleEndian(a / 0x100, width - 1);
      assert LittleEndian(b, width)[1..] == LittleEndian(b / 0x100, width - 1);
      LittleEndianInjective(a / 0x100, b / 0x100, width - 1);
    }
  }

  function Le64(value: u64): (s: bytes)
    ensures |s| == 8
  {
    LittleEndian(value as nat, 8)
  }

  lemma Le64Injective(a: u64, b: u64)
    requires Le64(a) == Le64(b)
    ensures a == b
  {
    assert LittleEndianRange(8) == 0x1_0000_0000_0000_0000;
    LittleEndianInjective(a as nat, b as nat, 8);
  }

  /** The bytes are the digits of the value to base 256, the lowest first. */
  lemma Le64Digits(value: u64)
    ensures var s := Le64(value);
            s[0] as nat + 0x100 * (s[1] as nat + 0x100 * (s[2] as nat + 0x100 * (s[3] as nat + 0x100 * (s[4] as nat
              + 0x100 * (s[5] as nat + 0x100 * (s[6] as nat + 0x100 * s[7] as nat)))))) == value as nat
  {
    LittleEndianValue(value as nat, 8);
    assert LittleEndianRange(8) == 0x1_0000_0000_0000_0000;
    var s := Le64(value);
    assert s == [s[0], s[1], s[2], s[3], s[4], s[5], s[6], s[7]];
    assert ValueOf(s) == s[0] as nat + 0x100 * ValueOf(s[1..]);
    assert ValueOf(s[1..]) == s[1] as nat + 0x100 * ValueOf(s[1..][1..]);
    assert s[1..][1..] == s[2..] && s[2..][1..] == s[3..] && s[3..][1..] == s[4..] && s[4..][1..] == s[5..];
    assert s[5..][1..] == s[6..] && s[6..][1..] == s[7..] && s[7..][1..] == [];
    assert ValueOf(s[2..]) == s[2] as nat + 0x100 * ValueOf(s[3..]);
    assert ValueOf(s[3..]) == s[3] as nat + 0x100 * ValueOf(s[4..]);
    assert ValueOf(s[4..]) == s[4] as nat + 0x100 * ValueOf(s[5..]);
    assert ValueOf(s[5..]) == s[5] as nat + 0x100 * ValueOf(s[6..]);
    assert ValueOf(s[6..]) == s[6] as nat + 0x100 * ValueOf(s[7..]);
    assert ValueOf(s[7..]) == s[7] as nat + 0x100 * ValueOf([]);
  }

  function ValueOf(s: bytes): nat {
    if s == [] then 0 else s[0] as nat + 0x100 * ValueOf(s[1..])
  }

  lemma {:induction false} LittleEndianValue(value: nat, width: nat)
    requires value < LittleEndianRange(width)
    ensures ValueOf(LittleEndian(value, width)) == value
  {
    if width > 0 {
      LittleEndianValue(value / 0x100, width - 1);
      assert LittleEndian(value, width)[1..] == LittleEndian(value / 0x100, width - 1);
    }
  }
}
