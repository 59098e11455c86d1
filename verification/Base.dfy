/** Types shared by every module: machine-width integers, byte strings, addresses. */
module Base {

  type byte = b: int | 0 <= b < 0x100
  type u16 = n: int | 0 <= n < 0x1_0000
  type u32 = n: int | 0 <= n < 0x1_0000_0000

  const U32_MAX: u32 := 0xffff_ffff

  type Bytes = seq<byte>

  /** An IPv4 address as its big-endian 32-bit value. */
  type Ip = u32

  /** A 48-bit Ethernet address. */
  datatype Mac = Mac(o0: byte, o1: byte, o2: byte, o3: byte, o4: byte, o5: byte) {
    function Octets(): (o: Bytes)
      ensures |o| == 6
    {
      [o0, o1, o2, o3, o4, o5]
    }
  }

  function MacAt(b: Bytes, at: nat): (m: Mac)
    requires at + 6 <= |b|
    ensures m.Octets() == b[at..at + 6]
  {
    Mac(b[at], b[at + 1], b[at + 2], b[at + 3], b[at + 4], b[at + 5])
  }

  /** A switch port handle, assigned in creation order. */
  type PortId = u32

  datatype Option<+T> = None | Some(value: T)

  datatype Result<+T, +E> = Ok(value: T) | Err(error: E)

  function Be16(hi: byte, lo: byte): (w: u16)
  {
    hi * 0x100 + lo
  }

  function Be16Bytes(w: u16): (b: Bytes)
    ensures |b| == 2 && Be16(b[0], b[1]) == w
  {
    [w / 0x100, w % 0x100]
  }

  function Be32(a: byte, b: byte, c: byte, d: byte): (w: u32)
  {
    ((a * 0x100 + b) * 0x100 + c) * 0x100 + d
  }

  /** Network order: the most significant byte and the first octet come first. */
  lemma NetworkOrder()
    ensures Be16Bytes(0x0806) == [8, 6] && Be16(8, 6) == 0x0806
    ensures Be32Bytes(0x0a01_0002) == [10, 1, 0, 2] && Be32(10, 1, 0, 2) == 0x0a01_0002
    ensures Mac(1, 2, 3, 4, 5, 6).Octets() == [1, 2, 3, 4, 5, 6]
  {}

  lemma SameDigits(x: nat, d: byte, y: nat, e: byte)
    requires x * 0x100 + d == y * 0x100 + e
    ensures x == y && d == e
  {}

  lemma Be32Injective(a: byte, b: byte, c: byte, d: byte, a': byte, b': byte, c': byte, d': byte)
    requires Be32(a, b, c, d) == Be32(a', b', c', d')
    ensures a == a' && b == b' && c == c' && d == d'
  {
    SameDigits((a * 0x100 + b) * 0x100 + c, d, (a' * 0x100 + b') * 0x100 + c', d');
    SameDigits(a * 0x100 + b, c, a' * 0x100 + b', c');
    SameDigits(a, b, a', b');
  }

  function Be32Bytes(w: u32): (b: Bytes)
    ensures |b| == 4 && Be32(b[0], b[1], b[2], b[3]) == w
  {
    [w / 0x100_0000, w / 0x1_0000 % 0x100, w / 0x100 % 0x100, w % 0x100]
  }
}
