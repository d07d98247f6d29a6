/** Octets and big-endian integers. A `std::string` of the program is a sequence of octets as well. */
module Bytes {

  type Byte = b: int | 0 <= b < 0x100
  type U16 = n: int | 0 <= n < 0x1_0000
  type U32 = n: int | 0 <= n < 0x1_0000_0000
  type Octets = seq<Byte>

  function ReadU16(s: Octets, at: nat): U16
    requires at + 2 <= |s|
  {
    s[at] as int * 0x100 + s[at + 1]
  }

  function ReadU32(s: Octets, at: nat): U32
    requires at + 4 <= |s|
  {
    s[at] as int * 0x100_0000 + s[at + 1] as int * 0x1_0000 + s[at + 2] as int * 0x100 + s[at + 3]
  }

  function U16Bytes(v: U16): (s: Octets)
    ensures |s| == 2
  {
    [v / 0x100, v % 0x100]
  }

  function U32Bytes(v: U32): (s: Octets)
    ensures |s| == 4
  {
    [v / 0x100_0000, v / 0x1_0000 % 0x100, v / 0x100 % 0x100, v % 0x100]
  }

  /** Both sizes are in network order: a 32-bit value is its high half and its low half, each read as 16 bits, high octet first. */
  lemma NetworkOrder(s: Octets, at: nat)
    requires at + 4 <= |s|
    ensures ReadU16(s, at) / 0x100 == s[at] && ReadU16(s, at) % 0x100 == s[at + 1]
    ensures ReadU32(s, at) / 0x1_0000 == ReadU16(s, at) && ReadU32(s, at) % 0x1_0000 == ReadU16(s, at + 2)
  {
  }

  lemma Regroup(a: Octets, b: Octets, c: Octets)
    ensures a + b + c == a + (b + c)
  {
  }

  /** `s` occurs in `whole` at offset `at`. */
  predicate At(whole: Octets, at: nat, s: Octets) {
    at + |s| <= |whole| && whole[at..at + |s|] == s
  }

  /** What occurs at an offset can be split anywhere. */
  lemma AtSplit(whole: Octets, at: nat, s: Octets, t: Octets)
    requires At(whole, at, s + t)
    ensures At(whole, at, s) && At(whole, at + |s|, t)
  {
    var st := whole[at..at + |s + t|];
    assert st[..|s|] == s && st[|s|..] == t;
    assert st[..|s|] == whole[at..at + |s|];
    assert st[|s|..] == whole[at + |s|..at + |s| + |t|];
  }

  /** Writing a 16-bit value and reading it back is the identity, at any offset. */
  lemma ReadWrittenU16(whole: Octets, at: nat, v: U16)
    requires At(whole, at, U16Bytes(v))
    ensures ReadU16(whole, at) == v
  {
    var w := whole[at..at + 2];
    assert w[0] == whole[at] && w[1] == whole[at + 1];
  }

  /** Writing a 32-bit value and reading it back is the identity, at any offset. */
  lemma ReadWrittenU32(whole: Octets, at: nat, v: U32)
    requires At(whole, at, U32Bytes(v))
    ensures ReadU32(whole, at) == v
  {
    var w := whole[at..at + 4];
    assert w[0] == whole[at] && w[1] == whole[at + 1] && w[2] == whole[at + 2] && w[3] == whole[at + 3];
    assert v / 0x1_0000 == v / 0x100_0000 * 0x100 + v / 0x1_0000 % 0x100;
    assert v / 0x100 == v / 0x1_0000 * 0x100 + v / 0x100 % 0x100;
  }

  /** The parts in order, with a separator between neighbours. */
  function Joined(parts: seq<Octets>, separator: Byte): Octets {
    if parts == [] then []
    else if |parts| == 1 then parts[0]
    else parts[0] + [separator] + Joined(parts[1..], separator)
  }

  lemma {:induction false} JoinedSnoc(parts: seq<Octets>, separator: Byte, last: Octets)
    requires parts != []
    ensures Joined(parts + [last], separator) == Joined(parts, separator) + [separator] + last
  {
    assert (parts + [last])[1..] == parts[1..] + [last];
    if |parts| > 1 {
      JoinedSnoc(parts[1..], separator, last);
      assert Joined(parts, separator) + [separator] + last
          == parts[0] + [separator] + (Joined(parts[1..], separator) + [separator] + last);
    }
  }
}
