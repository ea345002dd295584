/** Bytes, 16-bit words and the mask-and-shift idioms of the C sources.
    The rest of the model computes with quotients and remainders; the lemmas here show that
    those are the values of the masks and shifts the C code writes. */
module Bytes {
  type byte = x: int | 0 <= x < 0x100
  type uint16 = x: int | 0 <= x < 0x1_0000

  /** A conversion to `uint16_t`, also of a negative difference. */
  function Wrap16(x: int): (r: uint16)
    ensures 0 <= x < 0x1_0000 ==> r == x
    ensures -0x1_0000 <= x < 0 ==> r == x + 0x1_0000
  {
    x % 0x1_0000
  }

  function Upper(b: byte): byte { b / 16 }

  function Lower(b: byte): byte { b % 16 }

  /** The two bytes of a 16-bit word in network order. */
  function Store16(n: uint16): seq<byte> { [n / 0x100, n % 0x100] }

  function Load16(hi: byte, lo: byte): uint16 { hi * 0x100 + lo }

  // Facts inside the bit vectors

  lemma SplitNibbles(x: bv8)
    ensures x as int == (x >> 4) as int * 16 + (x & 0x0F) as int
    ensures (x & 0x0F) as int < 16
    ensures (x & 0xF0) >> 4 == x >> 4
  {}

  lemma SplitOctets(x: bv16)
    ensures x as int == (x >> 8) as int * 0x100 + (x & 0xFF) as int
    ensures (x & 0xFF) as int < 0x100
  {}

  lemma NibblesOfJoin(x: bv8, y: bv8)
    requires y < 16
    ensures var z := (x & 0x0F) | (y << 4); z >> 4 == y && z & 0x0F == x & 0x0F
    ensures var z := (x & 0xF0) | y; z >> 4 == x >> 4 && z & 0x0F == y
  {}

  lemma OctetsOfJoin(x: bv8, y: bv8)
    ensures var z := ((x as bv16) << 8) | (y as bv16); z >> 8 == x as bv16 && z & 0xFF == y as bv16
    ensures (x as bv16) as int == x as int
  {}

  lemma OctetsOfSwap(x: bv16)
    ensures var z := ((x & 0x00FF) << 8) | ((x & 0xFF00) >> 8); z & 0xFF == x >> 8 && z >> 8 == x & 0xFF
  {}

  lemma DivideUnique(x: int, q: int, r: int)
    ensures 0 <= r < 16 && x == q * 16 + r ==> x / 16 == q && x % 16 == r
    ensures 0 <= r < 0x100 && x == q * 0x100 + r ==> x / 0x100 == q && x % 0x100 == r
  {}

  // The idioms

  /** `(b & 0xF0) >> 4` and `b & 0x0F` read the two nibbles. */
  lemma MasksReadNibbles(x: bv8)
    ensures ((x & 0xF0) >> 4) as int == Upper(x as int)
    ensures (x & 0x0F) as int == Lower(x as int)
  {
    SplitNibbles(x);
    DivideUnique(x as int, (x >> 4) as int, (x & 0x0F) as int);
  }

  /** `(b & 0x0F) | (n << 4)` replaces the upper nibble, `(b & 0xF0) | n` the lower one. */
  lemma MasksReplaceNibble(x: bv8, y: bv8)
    requires y < 16
    ensures ((x & 0x0F) | (y << 4)) as int == y as int * 16 + Lower(x as int)
    ensures ((x & 0xF0) | y) as int == Upper(x as int) * 16 + y as int
  {
    NibblesOfJoin(x, y);
    SplitNibbles((x & 0x0F) | (y << 4));
    SplitNibbles((x & 0xF0) | y);
    SplitNibbles(x);
    MasksReadNibbles(x);
  }

  lemma SplitHeader(x: bv8)
    ensures x as int == (x >> 6) as int * 64 + (x & 0x3F) as int
    ensures (x & 0x3F) as int == (x & 0x30) as int + (x & 0x0F) as int
    ensures (x & 0x0F) as int < 16 && (x & 0x3F) as int < 64 && (x & 0xC0) >> 6 == x >> 6
    ensures x & 0x30 == 0 || x & 0x30 == 0x10 || x & 0x30 == 0x20 || x & 0x30 == 0x30
  {}

  lemma HeaderOfJoin(x: bv8, v: bv8, t: bv8)
    requires v < 4 && t & 0x30 == t
    ensures var z := (x & 0x3F) | (v << 6); z >> 6 == v && z & 0x3F == x & 0x3F
    ensures var z := (x & 0xCF) | t; z >> 6 == x >> 6 && z & 0x30 == t && z & 0x0F == x & 0x0F
  {}

  /** The masks of `getVersion`, `getType`, `setVersion` and `setType` on the first header byte. */
  lemma MasksHeader(x: bv8, v: bv8, t: bv8)
    requires v < 4 && t & 0x30 == t
    ensures ((x & 0xC0) >> 6) as int == x as int / 64 && (x & 0x30) as int == x as int % 64 / 16 * 16
    ensures ((x & 0x3F) | (v << 6)) as int == v as int * 64 + x as int % 64
    ensures ((x & 0xCF) | t) as int == x as int / 64 * 64 + t as int + x as int % 16
  {
    HeaderOfJoin(x, v, t);
    SplitHeader(x);
    SplitHeader((x & 0x3F) | (v << 6));
    SplitHeader((x & 0xCF) | t);
    HeaderQuotients(x as int, (x >> 6) as int, (x & 0x30) as int, (x & 0x0F) as int);
  }

  lemma HeaderQuotients(x: int, v: int, t: int, k: int)
    requires x == v * 64 + t + k && t in {0x00, 0x10, 0x20, 0x30} && 0 <= k < 16
    ensures x / 64 == v && x % 64 == t + k && x % 64 / 16 * 16 == t && x % 16 == k
  {
    var u := if t == 0x00 then 0 else if t == 0x10 then 1 else if t == 0x20 then 2 else 3;
    Divide64(x, v, t + k);
    DivideUnique(t + k, u, k);
    DivideUnique(x, v * 4 + u, k);
  }

  lemma Divide64(x: int, q: int, r: int)
    requires 0 <= r < 64 && x == q * 64 + r
    ensures x / 64 == q && x % 64 == r
  {}

  /** `(from[0] << 8) | from[1]` on 16-bit words is Load16. */
  lemma MasksLoad16(x: bv8, y: bv8)
    ensures (((x as bv16) << 8) | (y as bv16)) as int == Load16(x as int, y as int)
  {
    OctetsOfJoin(x, y);
    OctetsOfJoin(y, x);
    SplitOctets(((x as bv16) << 8) | (y as bv16));
  }

  /** A little-endian host lays the swapped word `((n & 0xFF) << 8) | ((n & 0xFF00) >> 8)` out low
      octet first, which leaves the octets of `n` in network order. */
  lemma MasksStore16(x: bv16)
    ensures var val := ((x & 0x00FF) << 8) | ((x & 0xFF00) >> 8);
            [(val & 0xFF) as int, (val >> 8) as int] == Store16(x as int)
  {
    hide Store16;
    OctetsOfSwap(x);
    OctetsInOrder(x, x >> 8, x & 0xFF);
  }

  lemma OctetsInOrder(x: bv16, hi: bv16, lo: bv16)
    requires hi == x >> 8 && lo == x & 0xFF
    ensures [hi as int, lo as int] == Store16(x as int)
  {
    SplitOctets(x);
    DivideUnique(x as int, hi as int, lo as int);
  }

  /** Storing a word and loading it back, in either direction. */
  lemma LoadStore16(n: uint16, hi: byte, lo: byte)
    ensures Load16(Store16(n)[0], Store16(n)[1]) == n
    ensures Store16(Load16(hi, lo)) == [hi, lo]
  {}
}
