/** The byte form of CoAP options (section 3.1 of RFC 7252): one delta-encoded record after another.
    `Encode` is the grammar; the `...At` functions are what the C readers compute at a position. */
module OptionCodec {
  import opened Bytes

  type OptionValue = v: seq<byte> | |v| < 0x1_0000

  datatype Record = Record(delta: uint16, value: OptionValue)

  const PAYLOAD_MARKER: byte := 0xFF

  /** `computeExtraBytes`: extension bytes for a delta or a length. */
  function Ext(n: uint16): nat { if n < 13 then 0 else if n < 269 then 1 else 2 }

  function Nibble(n: uint16): byte { if n < 13 then n else if n < 269 then 13 else 14 }

  function ExtBytes(n: uint16): (bytes: seq<byte>)
    ensures |bytes| == Ext(n)
  {
    if n < 13 then [] else if n < 269 then [n - 13] else Store16(n - 269)
  }

  function Header(delta: uint16, length: uint16): seq<byte> {
    [Nibble(delta) * 16 + Nibble(length)] + ExtBytes(delta) + ExtBytes(length)
  }

  /** Headers on both sides of each boundary of section 3.1 of RFC 7252. */
  lemma HeaderVectors()
    ensures Header(12, 12) == [0xCC] && Header(13, 13) == [0xDD, 0, 0] && Header(268, 268) == [0xDD, 255, 255]
    ensures Header(269, 269) == [0xEE, 0, 0, 0, 0] && Header(11, 300) == [0xBE, 0x00, 0x1F]
    ensures Header(2049, 0) == [0xE0, 0x06, 0xF4] && Header(60, 1) == [0xD1, 47]
  {}

  function EncodeRecord(r: Record): seq<byte> { Header(r.delta, |r.value|) + r.value }

  lemma RecordSize(delta: uint16, value: OptionValue)
    ensures |Header(delta, |value|)| == 1 + Ext(delta) + Ext(|value|)
    ensures |EncodeRecord(Record(delta, value))| == |Header(delta, |value|)| + |value|
  {}

  function Encode(recs: seq<Record>): seq<byte> {
    if recs == [] then [] else EncodeRecord(recs[0]) + Encode(recs[1..])
  }

  /** What follows the options: nothing, or the marker and a payload of at least one byte. */
  function Tail(payload: seq<byte>): seq<byte> {
    if payload == [] then [] else [PAYLOAD_MARKER] + payload
  }

  /** The bytes e stand at position p of s. */
  predicate At(s: seq<byte>, p: nat, e: seq<byte>) { p + |e| <= |s| && s[p..p + |e|] == e }

  lemma AtConcat(s: seq<byte>, p: nat, a: seq<byte>, b: seq<byte>)
    ensures At(s, p, a + b) <==> At(s, p, a) && At(s, p + |a|, b)
  {
    var q := p + |a|;
    if At(s, p, a + b) {
      assert s[p..q] == s[p..q + |b|][..|a|] == (a + b)[..|a|] == a;
      assert s[q..q + |b|] == s[p..q + |b|][|a|..] == (a + b)[|a|..] == b;
    }
  }

  /** What stands in a prefix stands in the whole. */
  lemma AtPrefix(s: seq<byte>, n: nat, p: nat, e: seq<byte>)
    requires n <= |s| && At(s[..n], p, e)
    ensures At(s, p, e)
  {
    assert s[p..p + |e|] == s[..n][p..p + |e|];
  }

  lemma JoinAt(s: seq<byte>, p: nat, e: seq<byte>)
    requires At(s, p, e)
    ensures s[..p + |e|] == s[..p] + e
  {}

  /** Three stretches of a buffer whose last one was written earlier, before the middle one. */
  lemma Assembled(a3: seq<byte>, a4: seq<byte>, p: nat, e: seq<byte>, t: seq<byte>)
    requires At(a3, p + |e|, t) && |a4| == |a3| && a4[p + |e|..] == a3[p + |e|..] && At(a4, p, e)
    ensures a4[..p + |e| + |t|] == a4[..p] + e + t
  {
    var q := p + |e|;
    assert a4[q..q + |t|] == a4[q..][..|t|] == a3[q..][..|t|] == a3[q..q + |t|];
    JoinAt(a4, p, e);
    JoinAt(a4, q, t);
  }

  /** s with the bytes e written from position p on. */
  function Overwrite(s: seq<byte>, p: nat, e: seq<byte>): (t: seq<byte>)
    requires p + |e| <= |s|
    ensures |t| == |s| && t[..p] == s[..p] && At(t, p, e) && t[p + |e|..] == s[p + |e|..]
  {
    s[..p] + e + s[p + |e|..]
  }

  lemma OverwriteOne(s: seq<byte>, p: nat, x: byte)
    requires p < |s|
    ensures s[p := x] == Overwrite(s, p, [x])
  {}

  lemma OverwriteNone(s: seq<byte>, p: nat)
    requires p <= |s|
    ensures Overwrite(s, p, []) == s
  {}

  lemma OverwriteHead(s: seq<byte>, p: nat, x: byte, e: seq<byte>, y: byte)
    requires p + 1 + |e| <= |s|
    ensures Overwrite(s, p, [x] + e)[p] == x
    ensures Overwrite(s, p, [x] + e)[p := y] == Overwrite(s, p, [y] + e)
  {}

  lemma SuffixMore(s: seq<byte>, t: seq<byte>, a: nat, b: nat)
    requires a <= b <= |s| == |t| && t[a..] == s[a..]
    ensures t[b..] == s[b..]
  {
    assert t[b..] == t[a..][b - a..] == s[a..][b - a..] == s[b..];
  }

  lemma OverwriteTwice(s: seq<byte>, p: nat, a: seq<byte>, b: seq<byte>)
    requires p + |a| + |b| <= |s|
    ensures Overwrite(Overwrite(s, p, a), p + |a|, b) == Overwrite(s, p, a + b)
  {}

  lemma {:induction false} EncodeConcat(a: seq<Record>, b: seq<Record>)
    ensures Encode(a + b) == Encode(a) + Encode(b)
  {
    hide EncodeRecord;
    if a == [] {
      assert a + b == b;
    } else {
      EncodeConcat(a[1..], b);
      assert (a + b)[0] == a[0] && (a + b)[1..] == a[1..] + b;
      ConcatAssociates(EncodeRecord(a[0]), Encode(a[1..]), Encode(b));
    }
  }

  lemma ConcatAssociates(a: seq<byte>, b: seq<byte>, c: seq<byte>)
    ensures a + b + c == a + (b + c)
  {}

  /** The encoding cut at record i. */
  lemma EncodeSplit(recs: seq<Record>, i: nat)
    requires i < |recs|
    ensures Encode(recs) == Encode(recs[..i]) + EncodeRecord(recs[i]) + Encode(recs[i + 1..])
    ensures Encode(recs[..i + 1]) == Encode(recs[..i]) + EncodeRecord(recs[i])
    ensures |Encode(recs[..i])| + |EncodeRecord(recs[i])| <= |Encode(recs)|
  {
    hide EncodeRecord;
    assert recs == recs[..i] + ([recs[i]] + recs[i + 1..]);
    EncodeConcat(recs[..i], [recs[i]] + recs[i + 1..]);
    assert recs[..i + 1] == recs[..i] + [recs[i]];
    EncodeConcat(recs[..i], [recs[i]]);
  }

  /** Where record i of an encoding at p stands. */
  lemma RecordStandsAt(s: seq<byte>, p: nat, recs: seq<Record>, i: nat)
    requires At(s, p, Encode(recs)) && i < |recs|
    ensures At(s, p + |Encode(recs[..i])|, EncodeRecord(recs[i]))
    ensures |Encode(recs[..i + 1])| == |Encode(recs[..i])| + |EncodeRecord(recs[i])| <= |Encode(recs)|
  {
    hide EncodeRecord;
    EncodeSplit(recs, i);
    var a, e, b := Encode(recs[..i]), EncodeRecord(recs[i]), Encode(recs[i + 1..]);
    AtConcat(s, p, a + e, b);
    AtConcat(s, p, a, e);
  }

  // Readers

  /** Extension bytes the delta reader looks at; the payload marker's nibble takes none. */
  function DeltaNeeds(h: byte): nat { if Upper(h) == 13 then 1 else if Upper(h) == 14 then 2 else 0 }

  function LengthNeeds(h: byte): nat { if Lower(h) < 13 then 0 else if Lower(h) == 13 then 1 else 2 }

  /** The readers stay inside s. */
  predicate Readable(s: seq<byte>, p: nat) {
    p < |s| && p + 1 + DeltaNeeds(s[p]) + LengthNeeds(s[p]) <= |s|
  }

  /** The delta as RFC 7252 defines it, before the C code narrows it to 16 bits. */
  function RawDelta(s: seq<byte>, p: nat): nat
    requires Readable(s, p)
  {
    var n := Upper(s[p]);
    if n == 13 then s[p + 1] + 13 else if n == 14 then Load16(s[p + 1], s[p + 2]) + 269 else n
  }

  function RawLength(s: seq<byte>, p: nat): nat
    requires Readable(s, p)
  {
    var n, q := Lower(s[p]), p + 1 + DeltaNeeds(s[p]);
    if n < 13 then n else if n == 13 then s[q] + 13 else Load16(s[q], s[q + 1]) + 269
  }

  /** `getOptionDelta`. */
  function DeltaAt(s: seq<byte>, p: nat): uint16
    requires Readable(s, p)
  {
    Wrap16(RawDelta(s, p))
  }

  /** `getOptionValueLength`. */
  function LengthAt(s: seq<byte>, p: nat): uint16
    requires Readable(s, p)
  {
    Wrap16(RawLength(s, p))
  }

  /** The size every walk of the C code steps by: it recomputes the extension bytes from the narrowed values. */
  function TotalAt(s: seq<byte>, p: nat): nat
    requires Readable(s, p)
  {
    1 + Ext(DeltaAt(s, p)) + Ext(LengthAt(s, p)) + LengthAt(s, p)
  }

  /** Neither extended value at p is narrowed. */
  predicate Unwrapped(s: seq<byte>, p: nat)
    requires Readable(s, p)
  {
    RawDelta(s, p) < 0x1_0000 && RawLength(s, p) < 0x1_0000
  }

  /** The size the grammar gives the option is the size the C code steps by exactly when neither
      value has been narrowed. */
  lemma TotalIsGrammarSizeIffUnwrapped(s: seq<byte>, p: nat)
    requires Readable(s, p) && Upper(s[p]) != 15 && Lower(s[p]) != 15
    ensures TotalAt(s, p) == 1 + DeltaNeeds(s[p]) + LengthNeeds(s[p]) + RawLength(s, p) <==> Unwrapped(s, p)
  {}

  /** Reading back an encoded header. */
  lemma ReadHeader(s: seq<byte>, p: nat, delta: uint16, length: uint16)
    requires At(s, p, Header(delta, length))
    ensures Readable(s, p) && Upper(s[p]) == Nibble(delta) && Lower(s[p]) == Nibble(length)
    ensures RawDelta(s, p) == delta && RawLength(s, p) == length
    ensures DeltaNeeds(s[p]) == Ext(delta) && LengthNeeds(s[p]) == Ext(length)
  {
    hide ExtBytes, Upper, Lower, Load16;
    var d, l := ExtBytes(delta), ExtBytes(length);
    var h := [Nibble(delta) * 16 + Nibble(length)];
    AtConcat(s, p, h + d, l);
    AtConcat(s, p, h, d);
    ByteAt(s, p, h, 0);
    NibblesOfHeader(delta, length);
    ExtBytesRead(s, p + 1, delta);
    ExtBytesRead(s, p + 1 + |d|, length);
  }

  lemma ByteAt(s: seq<byte>, p: nat, e: seq<byte>, k: nat)
    requires At(s, p, e) && k < |e|
    ensures s[p + k] == e[k]
  {
    assert s[p + k] == s[p..p + |e|][k];
  }

  lemma NibblesOfHeader(delta: uint16, length: uint16)
    ensures Upper(Nibble(delta) * 16 + Nibble(length)) == Nibble(delta)
    ensures Lower(Nibble(delta) * 16 + Nibble(length)) == Nibble(length)
  {}

  lemma ExtBytesRead(s: seq<byte>, q: nat, n: uint16)
    requires At(s, q, ExtBytes(n))
    ensures Ext(n) == 1 ==> s[q] as int + 13 == n
    ensures Ext(n) == 2 ==> Load16(s[q], s[q + 1]) + 269 == n
  {
    hide At, Load16, Store16;
    if n >= 13 {
      ByteAt(s, q, ExtBytes(n), 0);
    }
    if n >= 269 {
      ByteAt(s, q, ExtBytes(n), 1);
      LoadStore16(n - 269, 0, 0);
    }
  }

  /** Reading back an encoded record. */
  lemma ReadEncoded(s: seq<byte>, p: nat, r: Record)
    requires At(s, p, EncodeRecord(r))
    ensures Readable(s, p) && Upper(s[p]) != 15 && Lower(s[p]) != 15
    ensures RawDelta(s, p) == DeltaAt(s, p) == r.delta && RawLength(s, p) == LengthAt(s, p) == |r.value|
    ensures TotalAt(s, p) == |EncodeRecord(r)| && p + TotalAt(s, p) <= |s|
    ensures DeltaNeeds(s[p]) == Ext(r.delta) && LengthNeeds(s[p]) == Ext(|r.value|)
    ensures s[p + TotalAt(s, p) - |r.value|..p + TotalAt(s, p)] == r.value
  {
    var h := Header(r.delta, |r.value|);
    AtConcat(s, p, h, r.value);
    ReadHeader(s, p, r.delta, |r.value|);
  }

  /** The record that stands at p. */
  function RecordAt(s: seq<byte>, p: nat): Record
    requires Readable(s, p) && p + TotalAt(s, p) <= |s|
  {
    Record(DeltaAt(s, p), s[p + TotalAt(s, p) - LengthAt(s, p)..p + TotalAt(s, p)])
  }

  /** Any option without the reserved nibble is the encoding of its record, as long as nothing wraps. */
  lemma EncodeRead(s: seq<byte>, p: nat)
    requires Readable(s, p) && Upper(s[p]) != 15 && Lower(s[p]) != 15
    requires Unwrapped(s, p) && p + TotalAt(s, p) <= |s|
    ensures At(s, p, EncodeRecord(RecordAt(s, p)))
  {
    hide Header, Ext, DeltaAt, LengthAt, Readable, Upper, Lower, DeltaNeeds, LengthNeeds;
    var d, l := DeltaAt(s, p), LengthAt(s, p);
    HeaderRead(s, p);
    AtConcat(s, p, Header(d, l), RecordAt(s, p).value);
  }

  lemma HeaderRead(s: seq<byte>, p: nat)
    requires Readable(s, p) && Upper(s[p]) != 15 && Lower(s[p]) != 15 && Unwrapped(s, p)
    ensures At(s, p, Header(DeltaAt(s, p), LengthAt(s, p)))
    ensures var d, l := DeltaAt(s, p), LengthAt(s, p); |Header(d, l)| == 1 + Ext(d) + Ext(l)
  {
    var d, l := DeltaAt(s, p), LengthAt(s, p);
    var q := p + 1 + Ext(d);
    DeltaBytesRead(s, p);
    LengthBytesRead(s, p, q);
    hide DeltaAt, LengthAt, Ext, ExtBytes, Readable;
    assert [s[p]] + s[p + 1..q] + s[q..q + Ext(l)] == s[p..q + Ext(l)];
  }

  lemma DeltaBytesRead(s: seq<byte>, p: nat)
    requires Readable(s, p) && Upper(s[p]) != 15 && RawDelta(s, p) < 0x1_0000
    ensures Ext(DeltaAt(s, p)) == DeltaNeeds(s[p]) && Nibble(DeltaAt(s, p)) == Upper(s[p])
    ensures ExtBytes(DeltaAt(s, p)) == s[p + 1..p + 1 + DeltaNeeds(s[p])]
  {
    hide Upper, Lower, Load16, Store16, Wrap16, ExtBytes;
    var n, q := Upper(s[p]), p + 1;
    UpperIsNibble(s[p]);
    if n == 14 {
      ExtendedWord(s, q);
    } else if n == 13 {
      ExtendedByte(s, q);
    } else {
      NotExtended(s, q, n);
    }
  }

  lemma LengthBytesRead(s: seq<byte>, p: nat, q: nat)
    requires Readable(s, p) && Lower(s[p]) != 15 && RawLength(s, p) < 0x1_0000 && q == p + 1 + DeltaNeeds(s[p])
    ensures Ext(LengthAt(s, p)) == LengthNeeds(s[p]) && Nibble(LengthAt(s, p)) == Lower(s[p])
    ensures q + LengthNeeds(s[p]) <= |s| && ExtBytes(LengthAt(s, p)) == s[q..q + LengthNeeds(s[p])]
  {
    hide Upper, Lower, Load16, Store16, Wrap16, ExtBytes;
    var n := Lower(s[p]);
    UpperIsNibble(s[p]);
    if n == 14 {
      ExtendedWord(s, q);
    } else if n == 13 {
      ExtendedByte(s, q);
    } else {
      NotExtended(s, q, n);
    }
  }

  lemma UpperIsNibble(b: byte)
    ensures Upper(b) < 16 && Lower(b) < 16
  {}

  lemma ExtendedWord(s: seq<byte>, q: nat)
    requires q + 2 <= |s| && Load16(s[q], s[q + 1]) + 269 < 0x1_0000
    ensures ExtBytes(Load16(s[q], s[q + 1]) + 269) == s[q..q + 2]
  {
    hide Load16, Store16;
    LoadStore16(0, s[q], s[q + 1]);
    assert s[q..q + 2] == [s[q], s[q + 1]];
  }

  lemma ExtendedByte(s: seq<byte>, q: nat)
    requires q + 1 <= |s|
    ensures ExtBytes(s[q] as int + 13) == s[q..q + 1]
  {}

  lemma NotExtended(s: seq<byte>, q: nat, n: uint16)
    requires q <= |s| && n < 13
    ensures ExtBytes(n) == s[q..q]
  {}

  // Editing

  /** Giving the record at the front of a tail a new delta: its header byte keeps the length nibble, and
      everything behind the old extended delta stays. */
  lemma Rebase(tail: seq<byte>, r: Record, rest: seq<byte>, delta: uint16)
    requires tail == EncodeRecord(r) + rest
    ensures |tail| > Ext(r.delta) && Lower(tail[0]) == Nibble(|r.value|)
    ensures DeltaHeader(tail[0], delta) + tail[1 + Ext(r.delta)..] == EncodeRecord(Record(delta, r.value)) + rest
  {
    hide Nibble, ExtBytes;
    var l := ExtBytes(|r.value|) + r.value + rest;
    RecordParts(r, rest, l);
    RecordParts(Record(delta, r.value), rest, l);
    var h := DeltaPart(r.delta, |r.value|);
    assert tail[|h|..] == l;
    assert tail[0] == h[0];
  }

  /** The part of a header that holds the delta. */
  function DeltaPart(delta: uint16, length: uint16): seq<byte> {
    [Nibble(delta) * 16 + Nibble(length)] + ExtBytes(delta)
  }

  lemma RecordParts(r: Record, rest: seq<byte>, l: seq<byte>)
    requires l == ExtBytes(|r.value|) + r.value + rest
    ensures EncodeRecord(r) + rest == DeltaPart(r.delta, |r.value|) + l
    ensures |DeltaPart(r.delta, |r.value|)| == 1 + Ext(r.delta) && Nibble(|r.value|) <= 14
    ensures Lower(DeltaPart(r.delta, |r.value|)[0]) == Nibble(|r.value|)
  {}

  /** What `setOptionDelta` writes: the header byte with a new upper nibble, and the extended delta. */
  function DeltaHeader(h: byte, delta: uint16): seq<byte> { [Nibble(delta) * 16 + Lower(h)] + ExtBytes(delta) }

  /** The in-place re-basing, on the buffer. The header byte at the front of the tail moves up to `next` and
      gets its new delta there. */
  lemma RebaseInPlace(a1: seq<byte>, pos: nat, next: nat, r: Record, rest: seq<byte>, newDelta: uint16)
    requires At(a1, pos, EncodeRecord(r) + rest)
    requires Ext(newDelta) <= Ext(r.delta) && next == pos + Ext(r.delta) - Ext(newDelta)
    ensures next + 1 + Ext(newDelta) <= |a1|
    ensures var a2 := a1[next := a1[pos]];
            var a3 := Overwrite(a2, next, DeltaHeader(a2[next], newDelta));
            a3[..pos] == a1[..pos] && At(a3, next, EncodeRecord(Record(newDelta, r.value)) + rest)
  {
    var tail := EncodeRecord(r) + rest;
    Rebase(tail, r, rest, newDelta);
    DeltaHeaderSize(tail[0], newDelta);
    RecordSize(r.delta, r.value);
    hide Overwrite, EncodeRecord, DeltaHeader, Ext;
    assert a1[pos..pos + |tail|][0] == a1[pos];
    HeaderOver(a1, pos, next, tail, DeltaHeader(tail[0], newDelta));
  }

  /** A header of any bytes written at `next` inside the tail; what stood behind it follows it. */
  lemma HeaderOver(a: seq<byte>, pos: nat, next: nat, tail: seq<byte>, header: seq<byte>)
    requires At(a, pos, tail) && |header| > 0 && pos <= next && next + |header| <= pos + |tail|
    ensures var moved := a[next := a[pos]];
            var c := Overwrite(moved, next, header);
            && moved[next] == a[pos]
            && c[..pos] == a[..pos] && At(c, next, header + tail[next + |header| - pos..])
  {
    hide Overwrite;
    var end := pos + |tail|;
    var moved, q := a[next := a[pos]], next + |header|;
    var c := Overwrite(moved, next, header);
    HeaderMoved(a, pos, next, end);
    SuffixMore(a, moved, next + 1, q);
    SuffixMore(a, c, q, q);
    SliceOfTail(a, c, pos, q, end);
    AtConcat(c, next, header, tail[q - pos..]);
    assert c[..pos] == c[..next][..pos] == moved[..next][..pos] == a[..pos];
  }

  lemma DeltaHeaderSize(h: byte, delta: uint16)
    ensures |DeltaHeader(h, delta)| == 1 + Ext(delta)
  {}

  lemma HeaderMoved(a: seq<byte>, pos: nat, next: nat, end: nat)
    requires pos <= next < end <= |a|
    ensures var c := a[next := a[pos]];
            && c[next] == a[pos] == a[pos..end][0] && c[..next] == a[..next] && c[next + 1..] == a[next + 1..]
  {}

  lemma SliceOfTail(a: seq<byte>, c: seq<byte>, pos: nat, q: nat, end: nat)
    requires pos <= q <= end <= |a| == |c| && c[q..] == a[q..]
    ensures c[q..end] == a[pos..end][q - pos..]
  {
    assert c[q..end] == c[q..][..end - q] == a[q..][..end - q] == a[q..end];
  }
}
