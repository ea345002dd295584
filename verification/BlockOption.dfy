/** The Block2 option of block-wise transfers (section 2.2 of RFC 7959): the writer of the client and the
    reader of the receiving side. */
module BlockOption {
  import opened Bytes
  import opened OptionCodec
  import opened OptionList
  import opened Grammar
  import opened CoapPdu

  const BLOCK2: uint16 := 23

  datatype Option<+T> = None | Some(value: T)

  /** Size exponent, block number and more flag, in the integer types of the source. */
  datatype Block = Block(size: nat, number: nat, more: nat)

  /** The last byte: four bits of the number, the flag and the size. */
  function LowByte(b: Block): byte { b.number % 16 * 16 + b.more % 2 * 8 + b.size % 8 }

  /** The writer: one, two or three bytes by the number; higher bits of the number are cut off. */
  function EncodeBlock(b: Block): seq<byte> {
    if b.number <= 0x0F then [LowByte(b)]
    else if b.number <= 0x0FFF then [b.number / 16 % 0x100, LowByte(b)]
    else [b.number / 0x1000 % 0x100, b.number / 16 % 0x100, LowByte(b)]
  }

  /** A number from its upper bytes and the four bits below them. */
  function Join(hi: int, mid: int, low: int): int { hi * 0x1000 + mid * 16 + low }

  /** The reader: nothing for an empty value or one of more than three bytes. */
  function DecodeBlock(v: seq<byte>): Option<ReadBlock> {
    if |v| == 1 then Some(Block(v[0] % 8, v[0] / 16, v[0] / 8 % 2))
    else if |v| == 2 then Some(Block(v[1] % 8, Join(0, v[0], v[1] / 16), v[1] / 8 % 2))
    else if |v| == 3 then Some(Block(v[2] % 8, Join(v[0], v[1], v[2] / 16), v[2] / 8 % 2))
    else None
  }

  /** The masks of the last byte; of the number only its lowest octet n matters there. */
  lemma MasksLowByte(n: bv8, m: bv8, s: bv8)
    ensures (((n << 4) & 0xF0) | ((m << 3) & 0x08) | (s & 0x07)) as int
         == n as int % 16 * 16 + m as int % 2 * 8 + s as int % 8
  {
    MasksReadNibbles(n);
    LowParts(n, m, s);
    LowSum((n << 4) & 0xF0, (m << 3) & 0x08, s & 0x07);
  }

  lemma LowParts(n: bv8, m: bv8, s: bv8)
    ensures ((n << 4) & 0xF0) as int == 16 * ((n & 0x0F) as int)
    ensures ((m << 3) & 0x08) as int == m as int % 2 * 8 && (s & 0x07) as int == s as int % 8
  {}

  lemma LowSum(a: bv8, b: bv8, c: bv8)
    requires a & 0x0F == 0 && b & 0xF7 == 0 && c & 0xF8 == 0
    ensures (a | b | c) as int == a as int + b as int + c as int
  {}

  predicate IsBlock(b: Block) { b.number < 0x10_0000 && b.more < 2 && b.size < 8 }

  /** What the reader can return. */
  type ReadBlock = b: Block | IsBlock(b) witness Block(0, 0, 0)

  lemma LowByteParts(b: Block)
    ensures LowByte(b) / 16 == b.number % 16 && LowByte(b) / 8 % 2 == b.more % 2 && LowByte(b) % 8 == b.size % 8
  {
    var n, m, s := b.number % 16, b.more % 2, b.size % 8;
    assert n * 16 + m * 8 + s == (n * 2 + m) * 8 + s;
  }

  /** The reader inverts the writer exactly on numbers of 20 bits, a flag bit and a size of three bits. */
  lemma BlockRoundTripIff(b: Block)
    ensures DecodeBlock(EncodeBlock(b)) == Some(b) <==> IsBlock(b)
  {
    hide LowByte, Join;
    LowByteParts(b);
    NumberParts(b.number);
  }

  lemma NumberParts(n: nat)
    ensures n <= 0x0F ==> n % 16 == n
    ensures n <= 0x0FFF ==> n / 16 % 0x100 == n / 16 && Join(0, n / 16, n % 16) == n
    ensures Join(n / 0x1000 % 0x100, n / 16 % 0x100, n % 16) == n <==> n < 0x10_0000
  {
    var hi, mid, low := n / 0x1000, n / 16 % 0x100, n % 16;
    assert n == 16 * (n / 16) + low;
    assert n / 16 == 0x100 * hi + mid;
    assert n == Join(hi, mid, low);
    assert hi % 0x100 == hi <==> hi < 0x100;
  }

  /** A value as a number in network order. */
  function BigEndian(v: seq<byte>): nat {
    if v == [] then 0 else BigEndian(v[..|v| - 1]) * 0x100 + v[|v| - 1]
  }

  lemma BigEndianOfShort(v: seq<byte>)
    ensures |v| == 1 ==> BigEndian(v) == v[0]
    ensures |v| == 2 ==> BigEndian(v) == v[0] as int * 0x100 + v[1]
    ensures |v| == 3 ==> BigEndian(v) == v[0] as int * 0x1_0000 + v[1] as int * 0x100 + v[2]
  {
    if |v| == 3 {
      BigEndianOfShort(v[..2]);
    } else if |v| == 2 {
      BigEndianOfShort(v[..1]);
    }
  }

  /** The value of a block is the number of 4 to 20 bits, the flag and the size of 3 bits, from the most significant bit
      on, as section 2.2 of RFC 7959 lays it out; and so it is read. */
  lemma BlockOnWire(b: Block)
    requires IsBlock(b)
    ensures BigEndian(EncodeBlock(b)) == b.number * 16 + b.more * 8 + b.size
  {
    hide LowByte, BigEndian;
    BigEndianOfShort(EncodeBlock(b));
    LowByteIs(b);
    var n := b.number;
    assert n == 16 * (n / 16) + n % 16;
    assert n / 16 == 0x100 * (n / 0x1000) + n / 16 % 0x100;
  }

  lemma LowByteIs(b: Block)
    requires IsBlock(b)
    ensures LowByte(b) == b.number % 16 * 16 + b.more * 8 + b.size
  {}

  lemma BlockFromWire(v: seq<byte>)
    ensures DecodeBlock(v).Some? <==> 1 <= |v| <= 3
    ensures DecodeBlock(v).Some? ==>
              var b := DecodeBlock(v).value;
              BigEndian(v) == b.number * 16 + b.more * 8 + b.size && b.more < 2 && b.size < 8
  {
    hide BigEndian;
    BigEndianOfShort(v);
    if 1 <= |v| <= 3 {
      LastByteParts(v[|v| - 1]);
    }
  }

  lemma LastByteParts(x: byte)
    ensures x as int == x as int / 16 * 16 + x as int / 8 % 2 * 8 + x as int % 8
  {}

  /** No shorter value denotes the same block. */
  lemma EncodingShortest(b: Block, v: seq<byte>)
    requires DecodeBlock(v) == Some(b)
    ensures IsBlock(b) && |EncodeBlock(b)| <= |v|
  {
    if |v| == 2 {
      assert b.number == Join(0, v[0], v[1] / 16);
    }
  }

  // Reading the option of a message

  /** The value of the last option with this number: the lookup goes on behind a match. */
  function LastValue(opts: seq<CoapOption>, n: uint16): Option<OptionValue> {
    if opts == [] then None
    else
      var rest := LastValue(opts[1..], n);
      if rest == None && opts[0].number == n then Some(opts[0].value) else rest
  }

  lemma {:induction false} LastValueSnoc(opts: seq<CoapOption>, o: CoapOption, n: uint16)
    ensures LastValue(opts + [o], n) == if o.number == n then Some(o.value) else LastValue(opts, n)
  {
    if opts == [] {
      assert [] + [o] == [o] && [o][1..] == [];
    } else {
      assert (opts + [o])[1..] == opts[1..] + [o];
      LastValueSnoc(opts[1..], o, n);
    }
  }

  /** With a single option of the number the lookup finds that one. */
  lemma {:induction false} LastValueOfOnly(opts: seq<CoapOption>, n: uint16, o: CoapOption)
    requires WithNumber(opts, n) == [o]
    ensures LastValue(opts, n) == Some(o.value)
  {
    if opts[0].number == n {
      assert WithNumber(opts, n)[0] == opts[0] && WithNumber(opts, n)[1..] == WithNumber(opts[1..], n);
      LastValueOfNone(opts[1..], n);
    } else {
      LastValueOfOnly(opts[1..], n, o);
    }
  }

  lemma {:induction false} LastValueOfNone(opts: seq<CoapOption>, n: uint16)
    requires WithNumber(opts, n) == []
    ensures LastValue(opts, n) == None
  {
    if opts != [] {
      LastValueOfNone(opts[1..], n);
    }
  }

  /** The values with this number have room. */
  predicate CopiesFit(opts: seq<CoapOption>, n: uint16, room: nat) {
    forall o :: o in opts && o.number == n ==> |o.value| <= room
  }

  function ValueOrNone(v: Option<OptionValue>): seq<byte> { if v.Some? then v.value else [] }

  /** `getOptionValueById`: every value with the number is copied to the caller's memory, which does not tell its size.
      The copies stay inside it exactly when all of them fit; then the last one is there. */
  method GetOptionValueById(c: CoapPDU, optionNumber: uint16, dest: array<byte>) returns (inside: bool, length: nat)
    requires c.Parsed() && dest != c.pdu
    modifies dest
    ensures inside <==> CopiesFit(c.Read(), optionNumber, dest.Length)
    ensures inside ==> length <= dest.Length && dest[..length] == ValueOrNone(LastValue(c.Read(), optionNumber))
  {
    hide Walk, Walkable, Shows, LastValue;
    ghost var opts := c.Read();
    c.ReadShown();
    var options := c.GetOptions();
    length := 0;
    LastOfNothing(optionNumber);
    for i := 0 to |options|
      invariant CopiesFit(opts[..i], optionNumber, dest.Length) && length <= dest.Length
      invariant dest[..length] == ValueOrNone(LastValue(opts[..i], optionNumber))
    {
      var o := options[i];
      ShowsOne(c.pdu[..], options, opts, i);
      LastValueSnoc(opts[..i], opts[i], optionNumber);
      if o.number == optionNumber {
        if o.valueLength > dest.Length {
          return false, 0;
        }
        length := o.valueLength;
        CopyOut(c.pdu, o.valueAt, length, dest);
      }
    }
    assert opts[..|options|] == opts;
    return true, length;
  }

  /** `memcpy` of n bytes of the PDU to the front of the caller's memory. */
  method CopyOut(pdu: array<byte>, at: nat, n: nat, dest: array<byte>)
    requires at + n <= pdu.Length && n <= dest.Length && dest != pdu
    modifies dest
    ensures dest[..n] == pdu[at..at + n]
  {
    forall k | 0 <= k < n {
      dest[k] := pdu[at + k];
    }
  }

  lemma LastOfNothing(n: uint16)
    ensures LastValue([], n) == None
  {}

  lemma ShowsOne(s: seq<byte>, views: seq<OptionView>, opts: seq<CoapOption>, i: nat)
    requires Shows(s, views, opts) && i < |views|
    ensures |views| == |opts| && views[i].valueAt + views[i].valueLength <= |s|
    ensures opts[i] == Opt(views[i].number, s[views[i].valueAt..views[i].valueAt + views[i].valueLength])
    ensures opts[..i + 1] == opts[..i] + [opts[i]]
  {}

  const BLOCK_BUFFER := 10

  /** `coapGetRecvOptionBlock2`, with its buffer of ten bytes: None stands for its result 0. */
  method GetRecvBlock2(c: CoapPDU) returns (inside: bool, block: Option<ReadBlock>)
    requires c.Parsed()
    ensures inside <==> CopiesFit(c.Read(), BLOCK2, BLOCK_BUFFER)
    ensures inside ==> block == Received(c.Read())
  {
    var buff := new byte[BLOCK_BUFFER](_ => 0);
    var length;
    inside, length := GetOptionValueById(c, BLOCK2, buff);
    block := None;
    if inside && length > 0 {
      block := DecodeBlock(buff[..length]);
    }
  }

  function Received(opts: seq<CoapOption>): Option<ReadBlock> {
    match LastValue(opts, BLOCK2)
    case None => None
    case Some(v) => DecodeBlock(v)
  }
}
