/**
 * The little-endian wire formats of the three characteristic values, as
 * written by `struct.pack`. MicroPython's `struct.pack` keeps the low-order
 * bytes of a value that does not fit the field, so every encoder here
 * reduces its argument modulo 2^16 or 2^32 (two's complement for negatives).
 */
module Wire {
  import opened Types

  function Pow256(n: nat): (p: nat)
    ensures p >= 1
  {
    if n == 0 then 1 else 256 * Pow256(n - 1)
  }

  /** The `width` low-order bytes of `v`, least significant first. */
  function LittleEndian(v: nat, width: nat): (r: Bytes)
    ensures |r| == width
  {
    if width == 0 then [] else [v % 256] + LittleEndian(v / 256, width - 1)
  }

  /** The unsigned number a little-endian byte string stands for. */
  function FromLittleEndian(b: Bytes): (v: nat)
    ensures v < Pow256(|b|)
  {
    if |b| == 0 then 0 else b[0] + 256 * FromLittleEndian(b[1..])
  }

  lemma MulAtLeast(d: nat, k: nat)
    requires k >= 1
    ensures d * k >= d
  {
    assert d * k == d * (k - 1) + d;
  }

  lemma DivModUnique(v: int, d: int, q: int, r: int)
    requires d > 0 && v == d * q + r && 0 <= r < d
    ensures v / d == q && v % d == r
  {
    var q', r' := v / d, v % d;
    assert v == d * q' + r';
    assert d * q - d * q' == r' - r;
    assert d * (q - q') == r' - r;
    if q > q' {
      MulAtLeast(d, q - q');
    } else if q < q' {
      MulAtLeast(d, q' - q);
    }
  }

  lemma ModSplit(v: nat, p: nat)
    requires p >= 1
    ensures v % (256 * p) == v % 256 + 256 * ((v / 256) % p)
  {
    var q, r := v / 256, v % 256;
    var q2, r2 := q / p, q % p;
    assert v == 256 * q + r;
    assert q == p * q2 + r2;
    assert 256 * q == (256 * p) * q2 + 256 * r2;
    DivModUnique(v, 256 * p, q2, 256 * r2 + r);
  }

  /** Reading back `width` little-endian bytes gives `v` reduced to the field. */
  lemma {:induction false} FromLittleEndianOf(v: nat, width: nat)
    ensures FromLittleEndian(LittleEndian(v, width)) == v % Pow256(width)
  {
    if width > 0 {
      var b := LittleEndian(v, width);
      assert b[1..] == LittleEndian(v / 256, width - 1);
      FromLittleEndianOf(v / 256, width - 1);
      ModSplit(v, Pow256(width - 1));
    }
  }

  /**
   * `struct.pack("<h", v)`: a signed 16-bit field. Its two's-complement
   * reading is `v` reduced to 16 bits, and `v` itself when it fits.
   */
  function PackInt16(v: int): (r: Bytes)
    ensures |r| == 2
    ensures UnpackInt16(r) % 0x1_0000 == v % 0x1_0000
    ensures -0x8000 <= v < 0x8000 ==> UnpackInt16(r) == v
  {
    FromLittleEndianOf(v % 0x1_0000, 2);
    LittleEndian(v % 0x1_0000, 2)
  }

  /** `struct.pack("<H", v)`: an unsigned 16-bit field whose reading is `v` modulo 2^16. */
  function PackUint16(v: int): (r: Bytes)
    ensures |r| == 2
    ensures FromLittleEndian(r) == v % 0x1_0000
  {
    FromLittleEndianOf(v % 0x1_0000, 2);
    LittleEndian(v % 0x1_0000, 2)
  }

  /** `struct.pack("<I", v)`: an unsigned 32-bit field whose reading is `v` modulo 2^32. */
  function PackUint32(v: int): (r: Bytes)
    ensures |r| == 4
    ensures FromLittleEndian(r) == v % 0x1_0000_0000
  {
    FromLittleEndianOf(v % 0x1_0000_0000, 4);
    LittleEndian(v % 0x1_0000_0000, 4)
  }

  /** `struct.unpack("<h", b)`: the two's-complement reading of two bytes. */
  function UnpackInt16(b: Bytes): (v: int)
    requires |b| == 2
    ensures -0x8000 <= v < 0x8000
  {
    var u := FromLittleEndian(b);
    if u < 0x8000 then u else u - 0x1_0000
  }

  /** The default interval, 1000 ms, goes out as E8 03 00 00. */
  lemma IntervalExample()
    ensures PackUint32(1000) == [0xE8, 0x03, 0x00, 0x00]
  {
  }

  /** 25.00 degrees, 2500 hundredths, goes out as C4 09; -0.01 degrees as FF FF. */
  lemma TemperatureExamples()
    ensures PackInt16(2500) == [0xC4, 0x09]
    ensures PackInt16(-1) == [0xFF, 0xFF]
  {
  }

  /** 12.3 cm, 123 tenths, goes out as 7B 00. */
  lemma DistanceExample()
    ensures PackUint16(123) == [0x7B, 0x00]
  {
  }
}
