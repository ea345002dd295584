/** The CoAP message object: one buffer, built and rewritten in place.
    Pointers into the buffer are positions in it. */
module CoapPdu {
  import opened Bytes
  import opened OptionCodec
  import opened OptionList
  import opened Grammar

  const HDR_SIZE := 4
  const NULL := -1

  /** Bytes of a value that `insertOption` copies: for 269 bytes or more the length it copies by has
      already been reduced by 269. */
  function Copied(length: nat): nat { if length < 269 then length else length - 269 }

  /** What the option holds after an insertion: the copied bytes, and old buffer contents behind them. */
  ghost predicate Stores(stored: seq<byte>, v: seq<byte>) {
    |stored| == |v| && stored[..Copied(|v|)] == v[..Copied(|v|)]
  }

  /** Which bytes of a value reach the message: all below 269 bytes, all but the last 269 from there on. */
  lemma StoresIff(stored: seq<byte>, v: seq<byte>)
    ensures Stores(stored, v) <==>
            |stored| == |v| && forall k :: 0 <= k < (if |v| < 269 then |v| else |v| - 269) ==> stored[k] == v[k]
  {
    if |stored| == |v| {
      assert forall k :: 0 <= k < Copied(|v|) ==> stored[..Copied(|v|)][k] == stored[k] && v[..Copied(|v|)][k] == v[k];
    }
  }

  /** A value reaches the message whatever the buffer held before exactly when it is shorter than 269 bytes. */
  lemma ValueStoredIffShort(v: seq<byte>)
    ensures |v| < 269 <==> forall stored :: Stores(stored, v) ==> stored == v
  {
    if |v| < 269 {
      forall stored | Stores(stored, v)
        ensures stored == v
      {
        assert stored[..|v|] == stored && v[..|v|] == v;
      }
    } else {
      var last: byte := v[|v| - 1];
      var other: byte := if last == 0 then 1 else 0;
      var stored := v[..|v| - 1] + [other];
      assert stored[..Copied(|v|)] == v[..Copied(|v|)];
      assert stored[|v| - 1] != v[|v| - 1];
      assert Stores(stored, v) && stored != v;
    }
  }

  /** Where the options start: behind header and token. */
  function OptionsStart(b: seq<byte>): nat
    requires |b| > 0
  {
    HDR_SIZE + Lower(b[0])
  }

  /** Header and token. */
  function Head(b: seq<byte>): seq<byte>
    requires |b| > 0 && OptionsStart(b) <= |b|
  {
    b[..OptionsStart(b)]
  }

  /** b is a message with these option records and this payload. */
  ghost predicate Wire(b: seq<byte>, recs: seq<Record>, payload: seq<byte>) {
    && |b| >= HDR_SIZE && Lower(b[0]) <= 8 && OptionsStart(b) <= |b|
    && b[OptionsStart(b)..] == Encode(recs) + Tail(payload)
  }

  /** The codes `validate` accepts: empty and requests, and the response codes of section 12.1.2 of RFC 7252 with 2.31.
      */
  predicate CodeOk(code: byte) {
    || code <= 0x1F
    || code in {0x41, 0x42, 0x43, 0x44, 0x45, 0x5F}
    || code in {0x80, 0x81, 0x82, 0x83, 0x84, 0x85, 0x86, 0x8C, 0x8D, 0x8F}
    || code in {0xA0, 0xA1, 0xA2, 0xA3, 0xA4, 0xA5}
  }

  /** The accepted codes by class and detail: any request, 2.01 to 2.05 and 2.31, 4.00 to 4.06, 4.12, 4.13 and 4.15, and
      5.00 to 5.05. */
  lemma CodeOkIff(code: byte)
    ensures CodeOk(code) <==>
            var major, detail := code / 32, code % 32;
            || major == 0
            || (major == 2 && (1 <= detail <= 5 || detail == 31))
            || (major == 4 && (detail <= 6 || detail == 12 || detail == 13 || detail == 15))
            || (major == 5 && detail <= 5)
  {}

  /** Version 1, a token length of at most 8, room for the token and an accepted code. */
  predicate HeaderOk(b: seq<byte>) {
    |b| >= HDR_SIZE && b[0] / 64 == 1 && Lower(b[0]) <= 8 && OptionsStart(b) <= |b| && CodeOk(b[1])
  }

  /** b is a message by section 3 of RFC 7252, with an accepted code. */
  ghost predicate IsMessage(b: seq<byte>) {
    HeaderOk(b) && WellFormed(b, |b|, OptionsStart(b))
  }

  lemma WrittenDelta(s: seq<byte>, p: nat, delta: uint16)
    requires p + 1 + Ext(delta) <= |s|
    ensures var x: byte := Nibble(delta) * 16 + Lower(s[p]);
            Overwrite(s[p := x], p + 1, ExtBytes(delta)) == Overwrite(s, p, DeltaHeader(s[p], delta))
  {
    hide Overwrite;
    var x: byte := Nibble(delta) * 16 + Lower(s[p]);
    OverwriteOne(s, p, x);
    OverwriteTwice(s, p, [x], ExtBytes(delta));
  }

  lemma VersionBits(b: byte, version: byte)
    requires version <= 3
    ensures version * 64 + b % 64 < 0x100 && Lower(version * 64 + b % 64) == Lower(b)
  {}

  lemma TypeBits(b: byte, mt: byte)
    requires mt in {0x00, 0x10, 0x20, 0x30}
    ensures b / 64 * 64 + mt + b % 16 < 0x100 && Lower(b / 64 * 64 + mt + b % 16) == Lower(b)
  {}

  lemma NothingBehindHeader(b: seq<byte>)
    requires |b| == HDR_SIZE && Lower(b[0]) == 0
    ensures Wire(b, [], [])
  {}

  lemma BehindHeader(before: seq<byte>, b: seq<byte>, recs: seq<Record>, payload: seq<byte>)
    requires Wire(before, recs, payload) && |b| == |before|
    requires b[HDR_SIZE..] == before[HDR_SIZE..] && Lower(b[0]) == Lower(before[0])
    ensures OptionsStart(b) == OptionsStart(before) >= HDR_SIZE && Wire(b, recs, payload)
    ensures Head(b) == b[..HDR_SIZE] + Head(before)[HDR_SIZE..]
  {
    hide Encode, Tail, Lower;
    var p := OptionsStart(before);
    assert b[p..] == b[HDR_SIZE..][p - HDR_SIZE..] == before[HDR_SIZE..][p - HDR_SIZE..] == before[p..];
    assert b[HDR_SIZE..p] == b[HDR_SIZE..][..p - HDR_SIZE] == before[HDR_SIZE..][..p - HDR_SIZE] == before[HDR_SIZE..p];
  }

  lemma WireLength(b: seq<byte>, recs: seq<Record>, payload: seq<byte>)
    requires Wire(b, recs, payload)
    ensures |b| == OptionsStart(b) + |Encode(recs)| + |Tail(payload)|
    ensures At(b, OptionsStart(b), Encode(recs))
  {
    var p := OptionsStart(b);
    assert At(b, p, Encode(recs) + Tail(payload));
    AtConcat(b, p, Encode(recs), Tail(payload));
  }

  /** b is `body` bytes, the marker and the payload x. */
  predicate HasPayload(b: seq<byte>, body: nat, x: seq<byte>) {
    |b| == body + 1 + |x| && b[body] == PAYLOAD_MARKER && b[body + 1..] == x
  }

  lemma LengthOfParts(b: seq<byte>, recs: seq<Record>, payload: seq<byte>)
    requires Wire(b, recs, payload)
    ensures OptionsStart(b) <= |b| && |b| == |Head(b)| + |Encode(recs)| + |Tail(payload)|
  {
    WireLength(b, recs, payload);
  }

  /** Where the options of a message end. */
  function BodyEnd(b: seq<byte>, payload: seq<byte>): int { |b| - |Tail(payload)| }

  lemma WireTail(b: seq<byte>, recs: seq<Record>, payload: seq<byte>)
    requires Wire(b, recs, payload)
    ensures BodyEnd(b, payload) == OptionsStart(b) + |Encode(recs)| <= |b|
    ensures BodyEnd(b, payload) == if payload == [] then |b| else |b| - 1 - |payload|
    ensures payload != [] ==> HasPayload(b, BodyEnd(b, payload), payload)
  {
    WireLength(b, recs, payload);
    TailIs(payload);
    hide Encode, Tail;
    var p, e := OptionsStart(b), Encode(recs);
    var q := p + |e|;
    if payload != [] {
      TailAt(b, p, e, payload);
    }
  }

  lemma TailAt(b: seq<byte>, p: nat, e: seq<byte>, payload: seq<byte>)
    requires p <= |b| && b[p..] == e + ([PAYLOAD_MARKER] + payload)
    ensures HasPayload(b, p + |e|, payload)
  {
    var t := b[p..];
    assert t[|e|] == PAYLOAD_MARKER && t[|e| + 1..] == payload;
  }

  /** A record written behind the last one. */
  lemma WireAppend(b: seq<byte>, c: seq<byte>, recs: seq<Record>, r: Record)
    requires Wire(b, recs, []) && c == b + EncodeRecord(r)
    ensures Wire(c, recs + [r], []) && Head(c) == Head(b)
  {
    hide EncodeRecord;
    var p, e := OptionsStart(b), EncodeRecord(r);
    EncodeConcat(recs, [r]);
    assert Encode([r]) == e;
    assert b[p..] == Encode(recs);
    assert c[0] == b[0] && c[..p] == b[..p] && c[p..] == b[p..] + e;
    assert c[p..] == Encode(recs + [r]) + Tail([]);
  }

  /** The bytes behind record i. */
  lemma WireCut(b: seq<byte>, recs: seq<Record>, payload: seq<byte>, i: nat, p: nat) returns (rest: seq<byte>)
    requires Wire(b, recs, payload) && i < |recs| && p == OptionsStart(b) + |Encode(recs[..i])|
    ensures p <= |b| && b[p..] == EncodeRecord(recs[i]) + rest && rest == Encode(recs[i + 1..]) + Tail(payload)
  {
    hide EncodeRecord, Tail;
    var more := Encode(recs[i + 1..]);
    rest := more + Tail(payload);
    var start, a, e := OptionsStart(b), Encode(recs[..i]), EncodeRecord(recs[i]);
    EncodeSplit(recs, i);
    hide Encode;
    FourParts(a, e, more, Tail(payload));
    assert b[start..] == a + (e + rest);
    assert b[p..] == b[start..][|a|..];
  }

  lemma FourParts(a: seq<byte>, e: seq<byte>, more: seq<byte>, t: seq<byte>)
    ensures (a + e + more) + t == a + (e + (more + t))
    ensures (a + (e + more)) + t == a + (e + (more + t))
  {}

  /** A record written in front of record i, which has been given a new delta. */
  lemma WireInsert(b: seq<byte>, c: seq<byte>, recs: seq<Record>, payload: seq<byte>, i: nat, p: nat, r1: Record,
                   r2: Record)
    requires Wire(b, recs, payload) && i < |recs| && p == OptionsStart(b) + |Encode(recs[..i])| <= |b|
    requires c == b[..p] + EncodeRecord(r1) + (EncodeRecord(r2) + (Encode(recs[i + 1..]) + Tail(payload)))
    ensures Wire(c, recs[..i] + [r1, r2] + recs[i + 1..], payload) && Head(c) == Head(b)
  {
    hide EncodeRecord, Tail;
    EncodeInserted(recs, i, r1, r2);
    EncodeSplit(recs, i);
    WireCutFront(b, recs, payload, i, p);
    hide Encode;
    var start, a, e1, e2 := OptionsStart(b), Encode(recs[..i]), EncodeRecord(r1), EncodeRecord(r2);
    var more, t := Encode(recs[i + 1..]), Tail(payload);
    assert c == b[..p] + (e1 + (e2 + (more + t)));
    assert c[start..] == b[..p][start..] + (e1 + (e2 + (more + t))) == a + (e1 + (e2 + (more + t)));
    FourParts(a, e1, e2 + more, t);
    FourParts([], e2, more, t);
    assert c[..start] == b[..start] && c[0] == b[0];
  }

  lemma WireCutFront(b: seq<byte>, recs: seq<Record>, payload: seq<byte>, i: nat, p: nat)
    requires Wire(b, recs, payload) && i < |recs| && p == OptionsStart(b) + |Encode(recs[..i])| <= |b|
    ensures b[..p][OptionsStart(b)..] == Encode(recs[..i])
  {
    hide EncodeRecord, Tail;
    EncodeSplit(recs, i);
    var start, a := OptionsStart(b), Encode(recs[..i]);
    assert b[..p][start..] == b[start..][..|a|] == a;
  }

  lemma EncodeInserted(recs: seq<Record>, i: nat, r1: Record, r2: Record)
    requires i < |recs|
    ensures Encode(recs[..i] + [r1, r2] + recs[i + 1..])
         == Encode(recs[..i]) + (EncodeRecord(r1) + (EncodeRecord(r2) + Encode(recs[i + 1..])))
  {
    hide EncodeRecord;
    var rest := recs[i + 1..];
    assert recs[..i] + [r1, r2] + rest == recs[..i] + ([r1] + ([r2] + rest));
    EncodeConcat(recs[..i], [r1] + ([r2] + rest));
    EncodeTwo(r1, r2, rest);
  }

  lemma EncodeTwo(r1: Record, r2: Record, rest: seq<Record>)
    ensures Encode([r1] + ([r2] + rest)) == EncodeRecord(r1) + (EncodeRecord(r2) + Encode(rest))
  {
    assert ([r1] + ([r2] + rest))[1..] == [r2] + rest;
    assert ([r2] + rest)[1..] == rest;
  }

  /** The states of the buffer during an insertion: b before, a with the gap and the next option re-based, c with the
      new option. */
  lemma AfterInsertion(b: seq<byte>, a: seq<byte>, c: seq<byte>, p: nat, e1: seq<byte>, t: seq<byte>)
    requires p <= |b| && p <= |a| == |c| && a[..p] == b[..p] && c[..p] == a[..p]
    requires At(c, p, e1) && At(a, p + |e1|, t) && c[p + |e1|..] == a[p + |e1|..]
    ensures p + |e1| + |t| <= |c| && c[..p + |e1| + |t|] == b[..p] + e1 + t
  {
    Assembled(a, c, p, e1, t);
  }

  /** Replacing the token moves the rest of the message and nothing else. */
  function ReplaceToken(b: seq<byte>, token: seq<byte>): seq<byte>
    requires |b| >= HDR_SIZE && OptionsStart(b) <= |b| && |token| < 16
  {
    [Upper(b[0]) * 16 + |token|] + b[1..HDR_SIZE] + token + b[OptionsStart(b)..]
  }

  /** The message as `setToken` leaves it: a length above 8 is not set, so the old length nibble stays. */
  function StoredToken(b: seq<byte>, token: seq<byte>): seq<byte>
    requires |b| >= HDR_SIZE && OptionsStart(b) <= |b|
  {
    if |token| <= 8 then ReplaceToken(b, token) else b[..HDR_SIZE] + token + b[OptionsStart(b)..]
  }

  /** What a successful `setToken` leaves, as its branches need it. */
  lemma TokenOutcome(b: seq<byte>, recs: seq<Record>, payload: seq<byte>, token: seq<byte>)
    requires Wire(b, recs, payload)
    ensures |b| >= HDR_SIZE && Lower(b[0]) <= 8 && OptionsStart(b) <= |b|
    ensures |StoredToken(b, token)| == |b| - Lower(b[0]) + |token| >= HDR_SIZE
    ensures Lower(StoredToken(b, token)[0]) == |token| <==> |token| <= 8
    ensures |token| <= 8 ==>
              StoredToken(b, token) == ReplaceToken(b, token) && Wire(ReplaceToken(b, token), recs, payload)
  {
    TokenSetIffShort(b, token);
    if |token| <= 8 {
      WireToken(b, recs, payload, token);
    }
  }

  /** The token is the message's token exactly up to eight bytes. */
  lemma TokenSetIffShort(b: seq<byte>, token: seq<byte>)
    requires |b| >= HDR_SIZE && OptionsStart(b) <= |b| && Lower(b[0]) <= 8
    ensures Lower(StoredToken(b, token)[0]) == |token| <==> |token| <= 8
    ensures At(StoredToken(b, token), HDR_SIZE, token)
    ensures StoredToken(b, token)[0] / 16 == b[0] / 16 && StoredToken(b, token)[1..HDR_SIZE] == b[1..HDR_SIZE]
    ensures StoredToken(b, token)[HDR_SIZE + |token|..] == b[OptionsStart(b)..]
  {
    var c := StoredToken(b, token);
    assert c[HDR_SIZE + |token|..] == b[OptionsStart(b)..] && c[1..HDR_SIZE] == b[1..HDR_SIZE];
    assert c[HDR_SIZE..HDR_SIZE + |token|] == token;
    if |token| <= 8 {
      assert c[0] == Upper(b[0]) * 16 + |token|;
    }
  }

  lemma WireToken(b: seq<byte>, recs: seq<Record>, payload: seq<byte>, token: seq<byte>)
    requires Wire(b, recs, payload) && |token| <= 8
    ensures |b| >= HDR_SIZE && Lower(b[0]) <= 8 && OptionsStart(b) <= |b|
    ensures Wire(ReplaceToken(b, token), recs, payload) && |ReplaceToken(b, token)| == |b| - Lower(b[0]) + |token|
  {
    var c := ReplaceToken(b, token);
    assert c[0] == Upper(b[0]) * 16 + |token| && Lower(c[0]) == |token|;
    assert c[HDR_SIZE + |token|..] == b[OptionsStart(b)..];
  }

  lemma TailIs(payload: seq<byte>)
    ensures Tail(payload) == if payload == [] then [] else [PAYLOAD_MARKER] + payload
  {}

  /** The buffer a once the token is written and the rest has been moved, just before the length nibble is set. */
  ghost predicate TokenPlaced(b: seq<byte>, a: seq<byte>, token: seq<byte>, end: int) {
    && |b| >= HDR_SIZE && OptionsStart(b) <= |b|
    && end == |b| - OptionsStart(b) + HDR_SIZE + |token| <= |a|
    && (forall i :: 0 <= i < HDR_SIZE ==> a[i] == b[i])
    && (forall i :: 0 <= i < |token| ==> a[HDR_SIZE + i] == token[i])
    && (forall i :: OptionsStart(b) <= i < |b| ==> a[i - OptionsStart(b) + HDR_SIZE + |token|] == b[i])
  }

  lemma TokenParts(b: seq<byte>, a: seq<byte>, token: seq<byte>, end: nat)
    requires TokenPlaced(b, a, token, end) && |token| < 16
    ensures a[0 := Upper(a[0]) * 16 + |token|][..end] == ReplaceToken(b, token)
  {
    var c, r, q := a[0 := Upper(a[0]) * 16 + |token|], ReplaceToken(b, token), HDR_SIZE + |token|;
    forall i | 0 <= i < end
      ensures c[i] == r[i]
    {
      if q <= i {
        assert r[i] == b[OptionsStart(b)..][i - q] == b[i - q + OptionsStart(b)];
      } else if HDR_SIZE <= i {
        assert r[i] == token[i - HDR_SIZE] == a[HDR_SIZE + (i - HDR_SIZE)];
      } else if 0 < i {
        assert r[i] == b[1..HDR_SIZE][i - 1];
      }
    }
    assert c[..end] == r;
  }

  lemma TokenPartsKept(b: seq<byte>, a: seq<byte>, token: seq<byte>, end: nat)
    requires TokenPlaced(b, a, token, end)
    ensures a[..end] == b[..HDR_SIZE] + token + b[OptionsStart(b)..]
  {
    var r, q := b[..HDR_SIZE] + token + b[OptionsStart(b)..], HDR_SIZE + |token|;
    forall i | 0 <= i < end
      ensures a[i] == r[i]
    {
      if q <= i {
        assert r[i] == b[OptionsStart(b)..][i - q] == b[i - q + OptionsStart(b)];
      } else if HDR_SIZE <= i {
        assert r[i] == token[i - HDR_SIZE] == a[HDR_SIZE + (i - HDR_SIZE)];
      }
    }
  }

  /** The token written into a buffer a whose tail already stands behind its place. */
  lemma PlacedBehindGap(b: seq<byte>, a: seq<byte>, token: seq<byte>, end: nat)
    requires |b| >= HDR_SIZE && OptionsStart(b) <= |b|
    requires end == |b| - OptionsStart(b) + HDR_SIZE + |token| <= |a|
    requires a[..HDR_SIZE] == b[..HDR_SIZE] && At(a, HDR_SIZE + |token|, b[OptionsStart(b)..])
    ensures TokenPlaced(b, Overwrite(a, HDR_SIZE, token), token, end)
  {
    var q, t := HDR_SIZE + |token|, b[OptionsStart(b)..];
    forall i | 0 <= i < HDR_SIZE
      ensures a[i] == b[i]
    {
      assert a[i] == a[..HDR_SIZE][i] == b[..HDR_SIZE][i];
    }
    forall i | OptionsStart(b) <= i < |b|
      ensures a[i - OptionsStart(b) + q] == b[i]
    {
      assert a[q + (i - OptionsStart(b))] == a[q..q + |t|][i - OptionsStart(b)] == t[i - OptionsStart(b)];
    }
  }

  /** The token written over the front of the old one and the rest moved down behind it. */
  lemma PlacedBeforeShift(b: seq<byte>, s: seq<byte>, a: seq<byte>, c: seq<byte>, token: seq<byte>, end: nat)
    requires |b| >= HDR_SIZE && OptionsStart(b) <= |b| <= |s| && s[..|b|] == b
    requires HDR_SIZE + |token| <= OptionsStart(b) && end == |b| - OptionsStart(b) + HDR_SIZE + |token|
    requires a == Overwrite(s, HDR_SIZE, token)
    requires ShiftedDown(a, c, HDR_SIZE + |token|, OptionsStart(b) - HDR_SIZE - |token|, |b| - OptionsStart(b))
    ensures TokenPlaced(b, c, token, end)
  {
    assert forall i :: 0 <= i < |b| ==> s[i] == b[i];
    forall i | OptionsStart(b) <= i < |b|
      ensures c[i - OptionsStart(b) + HDR_SIZE + |token|] == b[i]
    {
      var k := i - OptionsStart(b) + HDR_SIZE + |token|;
      assert c[k] == a[k + (OptionsStart(b) - HDR_SIZE - |token|)] == a[i] == s[i];
    }
  }

  /** The options end where the payload part begins. */
  lemma OptionPartOf(b: seq<byte>, recs: seq<Record>, payload: seq<byte>)
    requires Wire(b, recs, payload)
    ensures 0 < OptionsStart(b) <= BodyEnd(b, payload) <= |b|
    ensures b[OptionsStart(b)..BodyEnd(b, payload)] == Encode(recs)
  {
    WireLength(b, recs, payload);
    hide Encode, Tail;
  }

  /** Bytes behind a payload belong to it. */
  lemma WireLongerPayload(b: seq<byte>, c: seq<byte>, recs: seq<Record>, payload: seq<byte>, more: seq<byte>)
    requires Wire(b, recs, payload) && payload != [] && c == b + more
    ensures Wire(c, recs, payload + more) && Head(c) == Head(b)
  {
    hide Encode, Tail;
    TailIs(payload);
    TailIs(payload + more);
    SuffixOfLonger(b, more, OptionsStart(b));
    MarkerStays(Encode(recs), payload, more);
  }

  lemma OneLength(b: seq<byte>, c: seq<byte>, recs: seq<Record>, payload: seq<byte>, more: seq<byte>)
    requires Wire(b, recs, payload) && c == b + more && more != []
    ensures !Wire(c, recs, payload)
  {
    WireLength(b, recs, payload);
    if Wire(c, recs, payload) {
      WireLength(c, recs, payload);
    }
  }

  lemma SuffixOfLonger(b: seq<byte>, more: seq<byte>, p: nat)
    requires 0 < p <= |b|
    ensures (b + more)[p..] == b[p..] + more && (b + more)[..p] == b[..p] && (b + more)[0] == b[0]
  {}

  lemma MarkerStays(e: seq<byte>, payload: seq<byte>, more: seq<byte>)
    ensures (e + ([PAYLOAD_MARKER] + payload)) + more == e + ([PAYLOAD_MARKER] + (payload + more))
  {}

  /** Replacing the payload, or adding one. */
  lemma WirePayload(b: seq<byte>, recs: seq<Record>, payload: seq<byte>, c: seq<byte>, newPayload: seq<byte>)
    requires Wire(b, recs, payload) && newPayload != []
    requires 0 <= BodyEnd(b, payload) && HasPayload(c, BodyEnd(b, payload), newPayload)
    requires c[..BodyEnd(b, payload)] == b[..BodyEnd(b, payload)]
    ensures Wire(c, recs, newPayload) && Head(c) == Head(b)
  {
    OptionPartOf(b, recs, payload);
    TailIs(newPayload);
    hide Encode, Tail, BodyEnd;
    Reslice(b, c, OptionsStart(b), BodyEnd(b, payload), newPayload);
  }

  lemma Reslice(b: seq<byte>, c: seq<byte>, p: nat, q: nat, x: seq<byte>)
    requires 0 < p <= q <= |b| && HasPayload(c, q, x) && c[..q] == b[..q]
    ensures c[0] == b[0] && c[..p] == b[..p] && c[p..] == b[p..q] + ([PAYLOAD_MARKER] + x)
  {
    assert c[..p] == c[..q][..p] == b[..q][..p] == b[..p];
    assert c[p..q] == c[..q][p..] == b[..q][p..] == b[p..q];
    assert c[0] == c[..p][0] == b[..p][0] == b[0];
    assert c[q..] == [PAYLOAD_MARKER] + x;
    assert c[p..] == c[p..q] + c[q..];
  }

  /** The payload after a successful call that copies a value: the value if the copy goes into the buffer, else what
      the reallocation kept and whatever stood behind it. */
  ghost predicate Arrives(stored: seq<byte>, kept: seq<byte>, value: seq<byte>, intoBuffer: bool) {
    && |stored| == |value|
    && if intoBuffer then stored == value else forall i :: 0 <= i < |stored| && i < |kept| ==> stored[i] == kept[i]
  }

  /** The value arrives whatever the memory held exactly when the copy goes into the buffer, or writes what is there. */
  lemma PayloadArrivesIff(kept: seq<byte>, value: seq<byte>, intoBuffer: bool)
    ensures (forall stored :: Arrives(stored, kept, value, intoBuffer) ==> stored == value)
       <==> intoBuffer || value <= kept
  {
    if intoBuffer {
    } else if value <= kept {
      forall stored | Arrives(stored, kept, value, false)
        ensures stored == value
      {
        assert stored == kept[..|value|];
      }
    } else {
      var stored := seq(|value|, i requires 0 <= i < |value| =>
                          if i < |kept| then kept[i] else if value[i] == 0 then 1 else 0);
      assert Arrives(stored, kept, value, false);
      if |value| <= |kept| {
        assert stored == kept[..|value|];
      } else {
        assert stored[|kept|] != value[|kept|];
      }
    }
  }

  /** A buffer whose payload has been added or resized: `kept` after the reallocation, a with the marker. */
  lemma PayloadMoved(before: seq<byte>, kept: seq<byte>, a: seq<byte>, body: nat, payload: seq<byte>, newLen: nat)
    requires if payload == [] then |before| == body else HasPayload(before, body, payload)
    requires body + 1 < newLen <= |kept|
    requires forall i :: 0 <= i < newLen && i < |before| ==> kept[i] == before[i]
    requires a == if payload == [] then kept[body := PAYLOAD_MARKER] else kept
    ensures a[..newLen][..body] == before[..body] && a[..newLen][body] == PAYLOAD_MARKER
    ensures forall i :: 0 <= i < newLen - body - 1 && i < |payload| ==> a[..newLen][body + 1 + i] == payload[i]
  {
    forall i | 0 <= i < newLen - body - 1 && i < |payload|
      ensures a[body + 1 + i] == payload[i]
    {
      assert before[body + 1..][i] == before[body + 1 + i];
    }
  }

  /** The payload bytes copied over those that were there. */
  lemma PayloadCopied(a: seq<byte>, c: seq<byte>, end: nat, recs: seq<Record>, payload: seq<byte>, body: nat,
                      value: seq<byte>)
    requires end <= |a| && value != [] && |payload| == |value|
    requires HasPayload(a[..end], body, payload) && Wire(a[..end], recs, payload)
    requires c == Overwrite(a, body + 1, value)
    ensures c[..end][..body] == a[..end][..body] && HasPayload(c[..end], body, value) && Wire(c[..end], recs, value)
  {
    var before, after := a[..end], c[..end];
    WireTail(before, recs, payload);
    assert after[..body] == c[..body + 1][..body] == a[..body + 1][..body] == before[..body];
    assert after[body] == c[..body + 1][body] == a[..body + 1][body] == before[body];
    assert after[body + 1..] == c[body + 1..body + 1 + |value|];
    WirePayload(before, recs, payload, after, value);
  }

  /** t is s with the `amount` bytes that end `offset` before `end` moved up to end there. */
  ghost predicate ShiftedUp(s: seq<byte>, t: seq<byte>, end: nat, offset: nat, amount: nat)
    requires offset + amount <= end <= |s|
  {
    && |t| == |s|
    && (forall i :: 0 <= i < end - amount ==> t[i] == s[i])
    && (forall i :: end - amount <= i < end ==> t[i] == s[i - offset])
  }

  lemma ShiftedUpParts(s: seq<byte>, t: seq<byte>, end: nat, offset: nat, amount: nat)
    requires offset + amount <= end <= |s| && ShiftedUp(s, t, end, offset, amount)
    ensures forall p :: 0 <= p <= end - amount ==> t[..p] == s[..p]
    ensures At(t, end - amount, s[end - offset - amount..end - offset])
  {
    var from, to := end - offset - amount, end - amount;
    var a, b := s[from..from + amount], t[to..to + amount];
    forall k | 0 <= k < amount
      ensures a[k] == b[k]
    {
      assert a[k] == s[from + k] && b[k] == t[to + k];
    }
    assert a == b;
    forall p | 0 <= p <= to
      ensures t[..p] == s[..p]
    {}
  }

  lemma GapOpened(before: seq<byte>, s: seq<byte>, t: seq<byte>, position: nat, length: nat, amount: nat)
    requires position <= length <= |before| && length + amount <= |s| && s[..length] == before[..length]
    requires ShiftedUp(s, t, length + amount, amount, length - position)
    ensures t[..position] == before[..position]
    ensures At(t, position + amount, before[position..length])
  {
    ShiftedUpParts(s, t, length + amount, amount, length - position);
    hide At, ShiftedUp;
    assert s[..position] == s[..length][..position] == before[..position];
    assert s[position..length] == s[..length][position..] == before[position..length];
  }

  /** What the verdict on an accepted header means. */
  lemma VerdictIsMeaning(b: seq<byte>, s: seq<byte>, len: nat)
    requires len + 2 <= |s| && b == s[..len] && HeaderOk(b)
    ensures OptionsStart(b) == HDR_SIZE + Lower(s[0]) <= len && HDR_SIZE <= len
    ensures NoWrap(s, len, OptionsStart(b)) ==> (IsMessage(b) <==> Scan(s, len, OptionsStart(b), 0).Accept?)
  {
    hide Scan, NoWrap, WellFormed;
    var p := OptionsStart(b);
    WellFormedInside(b, s, len, p);
    if NoWrap(s, len, p) {
      ScanDecidesGrammar(s, len, p, 0);
    }
  }

  /** The records and the payload of an accepted message. */
  lemma AcceptedParts(b: seq<byte>, s: seq<byte>, len: nat) returns (recs: seq<Record>, payload: seq<byte>)
    requires len + 2 <= |s| && b == s[..len] && HeaderOk(b)
    requires Scan(s, len, OptionsStart(b), 0).Accept? && NoWrap(s, len, OptionsStart(b))
    ensures Wire(b, recs, payload)
    ensures Scan(s, len, OptionsStart(b), 0) == Accept(|recs|, |payload|)
  {
    var p := OptionsStart(b);
    assert b[p..] == s[p..len];
    recs, payload := ScanSound(s, len, p, 0);
    ScanEncoded(s, len, p, 0, recs, payload);
  }

  /** t is s with the `amount` bytes that start `offset` behind `start` moved down to it. */
  ghost predicate ShiftedDown(s: seq<byte>, t: seq<byte>, start: nat, offset: nat, amount: nat)
    requires start + offset + amount <= |s|
  {
    && |t| == |s|
    && (forall i :: 0 <= i < start ==> t[i] == s[i])
    && (forall i :: start <= i < start + amount ==> t[i] == s[i + offset])
  }

  /** The lowest byte that the upward shift of `setToken` reads, with the old length cut to 8 bits. */
  function LowestShiftSource(length: nat, oldTokenLength: nat, tokenLength: nat): int {
    var newLength := length - oldTokenLength + tokenLength;
    var oldPDULength := length % 0x100;
    var shiftOffset, shiftAmount := newLength - oldPDULength, newLength - tokenLength - HDR_SIZE;
    newLength - shiftOffset - shiftAmount
  }

  /** `setToken` keeps the old length in 8 bits; a token of another length can be set without reading in front
      of the buffer exactly when the PDU has at most 255 bytes. */
  lemma TokenShiftInsideIffShort(length: nat, oldTokenLength: nat, tokenLength: nat)
    requires HDR_SIZE + oldTokenLength <= length && oldTokenLength <= 8 && 1 <= tokenLength
    ensures var shiftsUp := length - oldTokenLength + tokenLength > length % 0x100;
            (shiftsUp ==> LowestShiftSource(length, oldTokenLength, tokenLength) >= 0) <==> length <= 255
  {}

  class CoapPDU {
    var pdu: array<byte>
    var pduLength: int
    var constructedFromBuffer: bool
    var bufferLength: int
    var payloadPointer: int
    var payloadBlock: array?<byte>
    var payloadLength: int
    var numOptions: int
    var maxAddedOptionNumber: uint16

    ghost var recs: seq<Record>
    ghost var payload: seq<byte>

    function GetTokenLength(): nat
      requires pdu.Length > 0
      reads this, pdu
    {
      Lower(pdu[0])
    }

    /** The buffer bounds, which hold from construction on. */
    ghost predicate Sized()
      reads this
    {
      HDR_SIZE <= pduLength <= bufferLength <= pdu.Length
    }

    /** The bytes of the PDU. */
    ghost function Bytes(): seq<byte>
      requires 0 <= pduLength <= pdu.Length
      reads this, pdu
    {
      pdu[..pduLength]
    }

    /** The PDU is header, token, the records' encoding and the payload, and the fields agree with it. The payload
        pointer is a position in the block it was taken from, which need not be the buffer any more. */
    ghost predicate Shaped()
      reads this, pdu
    {
      && Sized()
      && Wire(Bytes(), recs, payload)
      && numOptions == |recs| && payloadLength == |payload|
      && payloadPointer == (if payload == [] then NULL else pduLength - |payload|)
      && (payloadBlock == null <==> payload == [])
    }

    /** The payload pointer also points into the buffer. */
    ghost predicate Valid()
      reads this, pdu
    {
      Shaped() && (payload != [] ==> payloadBlock == pdu)
    }

    ghost function Contents(): seq<CoapOption>
      reads this
    {
      Options(0, recs)
    }

    /** `getOptions` can walk the counted options: so it is after any accepting `validate`. */
    ghost predicate Parsed()
      reads this, pdu
    {
      pdu.Length > 0 && 0 <= numOptions && Walkable(pdu[..], HDR_SIZE + GetTokenLength(), numOptions)
    }

    /** The options as `getOptions` shows them. */
    ghost function Read(): seq<CoapOption>
      requires Parsed()
      reads this, pdu
    {
      WalkInside(pdu[..], HDR_SIZE + GetTokenLength(), numOptions, 0);
      Shown(pdu[..], Walk(pdu[..], HDR_SIZE + GetTokenLength(), numOptions, 0))
    }

    // Construction and header

    constructor Dynamic()
      ensures Valid() && fresh(pdu) && !constructedFromBuffer
      ensures recs == [] && payload == [] && maxAddedOptionNumber == 0 && Bytes() == [0x40, 0, 0, 0]
    {
      pdu := new byte[HDR_SIZE](_ => 0);
      pduLength, bufferLength := HDR_SIZE, HDR_SIZE;
      numOptions, maxAddedOptionNumber := 0, 0;
      payloadPointer, payloadBlock, payloadLength := NULL, null, 0;
      constructedFromBuffer := false;
      recs, payload := [], [];
      new;
      var _ := SetVersion(1);
    }

    /** An object on an external buffer; with length 0 a new PDU is started in it. */
    constructor FromBuffer(buffer: array<byte>, bufferLength: int, pduLength: int)
      requires 0 <= pduLength <= bufferLength <= buffer.Length && (pduLength == 0 ==> HDR_SIZE <= bufferLength)
      modifies buffer
      ensures pdu == buffer && this.bufferLength == bufferLength && constructedFromBuffer
      ensures maxAddedOptionNumber == 0 && numOptions == 0
      ensures payloadPointer == NULL && payloadBlock == null && payloadLength == 0
      ensures pduLength == 0 ==> Valid() && recs == [] && payload == [] && Bytes() == [0x40, 0, 0, 0]
      ensures pduLength != 0 ==> this.pduLength == pduLength && buffer[..] == old(buffer[..])
    {
      pdu := buffer;
      this.bufferLength := bufferLength;
      this.pduLength := if pduLength == 0 then HDR_SIZE else pduLength;
      constructedFromBuffer := true;
      numOptions, maxAddedOptionNumber := 0, 0;
      payloadPointer, payloadBlock, payloadLength := NULL, null, 0;
      recs, payload := [], [];
      new;
      if pduLength == 0 {
        pdu[0], pdu[1], pdu[2], pdu[3] := 0, 0, 0, 0;
        var _ := SetVersion(1);
      }
    }

    /** `reset`: an empty PDU again, with version 0 until it is set. */
    method Reset() returns (res: int)
      requires Sized()
      modifies this, pdu
      ensures res == 0 && Valid() && pdu == old(pdu) && bufferLength == old(bufferLength)
      ensures constructedFromBuffer == old(constructedFromBuffer)
      ensures recs == [] && payload == [] && maxAddedOptionNumber == 0 && Bytes() == [0, 0, 0, 0]
    {
      hide Encode, Tail, OptionsStart, Wire;
      forall i | 0 <= i < bufferLength {
        pdu[i] := 0;
      }
      pduLength := HDR_SIZE;
      numOptions, maxAddedOptionNumber := 0, 0;
      payloadPointer, payloadBlock, payloadLength := NULL, null, 0;
      recs, payload := [], [];
      NothingBehindHeader(Bytes());
      return 0;
    }

    /** Header bytes can change as long as the token length does not. */
    lemma HeadChanged(before: seq<byte>)
      requires 0 <= pduLength <= pdu.Length
      requires Wire(before, recs, payload) && |before| == pduLength
      requires Bytes()[HDR_SIZE..] == before[HDR_SIZE..] && Lower(pdu[0]) == Lower(before[0])
      ensures Wire(Bytes(), recs, payload)
      ensures Head(Bytes()) == Bytes()[..HDR_SIZE] + Head(before)[HDR_SIZE..]
    {
      hide Wire, OptionsStart, Head, Encode, Tail, Lower;
      BehindHeader(before, Bytes(), recs, payload);
    }

    method SetVersion(version: byte) returns (res: int)
      requires Valid()
      modifies pdu
      ensures Valid() && (res == 0 <==> version > 3)
      ensures Bytes() == if version > 3 then old(Bytes()) else old(Bytes())[0 := version * 64 + old(pdu[0]) % 64]
    {
      hide Encode, Tail, Wire, Lower, OptionsStart;
      if version > 3 {
        return 0;
      }
      ghost var before := Bytes();
      VersionBits(pdu[0], version);
      pdu[0] := version * 64 + pdu[0] % 64;
      HeadChanged(before);
      return 1;
    }

    method SetType(mt: byte)
      requires Valid() && mt in {0x00, 0x10, 0x20, 0x30}
      modifies pdu
      ensures Valid()
      ensures Bytes() == old(Bytes())[0 := old(pdu[0]) / 64 * 64 + mt + old(pdu[0]) % 16]
    {
      hide Encode, Tail, Wire, Lower, OptionsStart;
      ghost var before := Bytes();
      TypeBits(pdu[0], mt);
      pdu[0] := pdu[0] / 64 * 64 + mt + pdu[0] % 16;
      HeadChanged(before);
    }

    /** `setCode`: the int is stored in a byte. */
    method SetCode(code: int)
      requires Valid()
      modifies pdu
      ensures Valid() && Bytes() == old(Bytes())[1 := code % 0x100]
    {
      hide Encode, Tail, Wire;
      ghost var before := Bytes();
      pdu[1] := code % 0x100;
      HeadChanged(before);
    }

    method SetMessageID(messageID: uint16) returns (res: int)
      requires Valid()
      modifies pdu
      ensures res == 0 && Valid()
      ensures Bytes() == old(Bytes())[2 := Store16(messageID)[0]][3 := Store16(messageID)[1]]
    {
      hide Encode, Tail, Wire;
      ghost var before := Bytes();
      var to := Store16(messageID);
      pdu[2], pdu[3] := to[0], to[1];
      HeadChanged(before);
      return 0;
    }

    function GetVersion(): byte
      requires pdu.Length > 0
      reads this, pdu
    {
      pdu[0] / 64
    }

    function GetType(): byte
      requires pdu.Length > 0
      reads this, pdu
    {
      pdu[0] % 64 / 16 * 16
    }

    function GetCode(): byte
      requires pdu.Length > 1
      reads this, pdu
    {
      pdu[1]
    }

    function GetMessageID(): uint16
      requires pdu.Length > 3
      reads this, pdu
    {
      Load16(pdu[2], pdu[3])
    }

    // Space

    /** The reallocation or space check that every growing operation makes for a new length. A reallocation keeps the
        block when it has room behind it, or moves to another. */
    method Reserve(newLength: nat) returns (ok: bool)
      requires Sized()
      modifies this`pdu, this`bufferLength
      ensures constructedFromBuffer ==> (ok <==> newLength <= bufferLength)
      ensures !ok || constructedFromBuffer ==> pdu == old(pdu) && bufferLength == old(bufferLength)
      ensures ok && !constructedFromBuffer ==>
                && (pdu == old(pdu) || fresh(pdu)) && bufferLength == newLength <= pdu.Length
                && forall i :: 0 <= i < newLength && i < old(bufferLength) ==> pdu[i] == old(pdu[i])
    {
      if constructedFromBuffer {
        return newLength <= bufferLength;
      }
      var outOfMemory: bool := *;
      if outOfMemory {
        return false;
      }
      var moves: bool := *;
      if newLength <= pdu.Length && !moves {
        bufferLength := newLength;
        return true;
      }
      var room: nat :| true;
      var newMemory := new byte[newLength + room];
      forall i | 0 <= i < newLength && i < bufferLength {
        newMemory[i] := pdu[i];
      }
      pdu, bufferLength := newMemory, newLength;
      return true;
    }

    /** Moves the `shiftAmount` bytes that end `shiftOffset` before the end of the PDU up to its end. */
    method ShiftPDUUp(shiftOffset: nat, shiftAmount: nat)
      requires shiftOffset + shiftAmount <= pduLength <= pdu.Length
      modifies pdu
      ensures ShiftedUp(old(pdu[..]), pdu[..], pduLength, shiftOffset, shiftAmount)
    {
      var destPointer := pduLength - 1;
      var srcPointer := destPointer - shiftOffset;
      var amount := shiftAmount;
      while amount != 0
        invariant 0 <= amount <= shiftAmount
        invariant destPointer == pduLength - 1 - (shiftAmount - amount) && srcPointer == destPointer - shiftOffset
        invariant forall i :: 0 <= i <= destPointer ==> pdu[i] == old(pdu[i])
        invariant forall i :: destPointer < i < pduLength ==> pdu[i] == old(pdu[i - shiftOffset])
        invariant forall i :: pduLength <= i < pdu.Length ==> pdu[i] == old(pdu[i])
        decreases amount
      {
        amount := amount - 1;
        pdu[destPointer] := pdu[srcPointer];
        destPointer := destPointer - 1;
        srcPointer := srcPointer - 1;
      }
    }

    /** Moves the `shiftAmount` bytes `shiftOffset` behind `start` down to `start`. */
    method ShiftPDUDown(start: nat, shiftOffset: nat, shiftAmount: nat)
      requires start + shiftOffset + shiftAmount <= pdu.Length
      modifies pdu
      ensures ShiftedDown(old(pdu[..]), pdu[..], start, shiftOffset, shiftAmount)
    {
      var startLocation := start;
      var srcPointer := start + shiftOffset;
      var amount := shiftAmount;
      while amount != 0
        invariant 0 <= amount <= shiftAmount
        invariant startLocation == start + (shiftAmount - amount) && srcPointer == startLocation + shiftOffset
        invariant forall i :: 0 <= i < start ==> pdu[i] == old(pdu[i])
        invariant forall i :: start <= i < startLocation ==> pdu[i] == old(pdu[i + shiftOffset])
        invariant forall i :: startLocation <= i < pdu.Length ==> pdu[i] == old(pdu[i])
        decreases amount
      {
        amount := amount - 1;
        pdu[startLocation] := pdu[srcPointer];
        startLocation := startLocation + 1;
        srcPointer := srcPointer + 1;
      }
    }

    // Options

    /** `getOptionDelta` and `getOptionValueLength` of the option at position p. */
    method GetOptionDelta(p: nat) returns (delta: uint16)
      requires Readable(pdu[..], p)
      ensures delta == DeltaAt(pdu[..], p)
    {
      var n := Upper(pdu[p]);
      if n < 13 {
        return n;
      } else if n == 13 {
        var ext: int := pdu[p + 1];
        return ext + 13;
      } else if n == 14 {
        return Wrap16(Load16(pdu[p + 1], pdu[p + 2]) + 269);
      } else {
        return n;
      }
    }

    method GetOptionValueLength(p: nat) returns (length: uint16)
      requires Readable(pdu[..], p)
      ensures length == LengthAt(pdu[..], p)
    {
      var delta, n := Upper(pdu[p]), Lower(pdu[p]);
      if n < 13 {
        return n;
      }
      var offset := 1;
      if delta == 13 {
        offset := offset + 1;
      } else if delta == 14 {
        offset := offset + 2;
      }
      if n == 13 {
        var ext: int := pdu[p + offset];
        return ext + 13;
      } else {
        return Wrap16(Load16(pdu[p + offset], pdu[p + offset + 1]) + 269);
      }
    }

    /** Where record i stands, or the end of the options; and the option number before it. */
    ghost function PositionOf(i: nat): nat
      requires i <= |recs| && pdu.Length > 0
      reads this, pdu
    {
      HDR_SIZE + GetTokenLength() + |Encode(recs[..i])|
    }

    ghost function NumberBefore(i: nat): nat
      requires i <= |recs|
      reads this
    {
      Last(0, recs[..i])
    }

    lemma Ends()
      requires Valid()
      ensures PositionOf(0) == HDR_SIZE + GetTokenLength() && NumberBefore(0) == 0
      ensures PositionOf(|recs|) == BodyEnd(Bytes(), payload)
      ensures if payload == [] then PositionOf(|recs|) == pduLength
              else PositionOf(|recs|) < pduLength && pdu[PositionOf(|recs|)] == PAYLOAD_MARKER
    {
      assert recs[..|recs|] == recs;
      WireTail(Bytes(), recs, payload);
    }

    /** What a walk that stands on record i reads, and where that leads. */
    lemma AtRecord(i: nat)
      requires Valid() && i < |recs|
      ensures var p, s := PositionOf(i), pdu[..];
              && Readable(s, p) && DeltaAt(s, p) == recs[i].delta && LengthAt(s, p) == |recs[i].value|
              && p < PositionOf(i + 1) == p + TotalAt(s, p) <= pduLength
              && s[p] != PAYLOAD_MARKER
      ensures NumberBefore(i + 1) == NumberBefore(i) + recs[i].delta <= Last(0, recs)
      ensures PositionOf(i + 1) == pduLength <==> i + 1 == |recs| && payload == []
    {
      StandsAt(i);
      ReadEncoded(pdu[..], PositionOf(i), recs[i]);
      LastSplit(recs, i);
      Behind(i + 1);
    }

    lemma StandsAt(i: nat)
      requires Valid() && i < |recs|
      ensures At(pdu[..], PositionOf(i), EncodeRecord(recs[i]))
      ensures PositionOf(i + 1) == PositionOf(i) + |EncodeRecord(recs[i])| <= pduLength
    {
      hide Encode, EncodeRecord, Tail;
      var b := Bytes();
      WireLength(b, recs, payload);
      RecordStandsAt(b, OptionsStart(b), recs, i);
      AtPrefix(pdu[..], pduLength, PositionOf(i), EncodeRecord(recs[i]));
    }

    lemma Behind(i: nat)
      requires Valid() && i <= |recs|
      ensures PositionOf(i) <= pduLength
      ensures PositionOf(i) == pduLength <==> i == |recs| && payload == []
    {
      WireLength(Bytes(), recs, payload);
      if i < |recs| {
        EncodeSplit(recs, i);
      } else {
        assert recs[..i] == recs;
      }
    }

    /** Where an option with this number goes, the option number before it, and (ghost) its index. A number not below
        the maximum goes to the end of the PDU, also when a payload is there. */
    method FindInsertionPosition(optionNumber: uint16) returns (position: nat, prev: uint16, ghost i: nat)
      requires Valid() && Numbered(recs)
      ensures i <= |recs| && position <= pduLength
      ensures maxAddedOptionNumber <= optionNumber || (recs == [] && payload == []) ==>
                i == |recs| && position == pduLength && prev == maxAddedOptionNumber
      ensures !(maxAddedOptionNumber <= optionNumber || (recs == [] && payload == [])) ==>
                && position == PositionOf(i) && prev == NumberBefore(i) <= optionNumber
                && (i < |recs| ==> optionNumber < prev + recs[i].delta)
                && (position == pduLength <==> i == |recs| && payload == [])
    {
      hide Wire, Encode, EncodeRecord, Tail, Last, Readable, DeltaAt, LengthAt, PositionOf, NumberBefore, BodyEnd;
      Ends();
      Behind(0);
      if optionNumber >= maxAddedOptionNumber || pduLength == HDR_SIZE + GetTokenLength() {
        return pduLength, maxAddedOptionNumber, |recs|;
      }
      var optionPos := HDR_SIZE + GetTokenLength();
      var currentOptionNumber: uint16 := 0;
      prev, i := 0, 0;
      while optionPos < pduLength && pdu[optionPos] != PAYLOAD_MARKER
        invariant i <= |recs| && optionPos == PositionOf(i) <= pduLength
        invariant optionPos == pduLength <==> i == |recs| && payload == []
        invariant prev == currentOptionNumber == NumberBefore(i) <= optionNumber
        decreases |recs| - i
      {
        AtRecord(i);
        var optionDelta := GetOptionDelta(optionPos);
        currentOptionNumber := Wrap16(currentOptionNumber + optionDelta);
        var optionValueLength := GetOptionValueLength(optionPos);
        if currentOptionNumber > optionNumber {
          return optionPos, prev, i;
        }
        prev := currentOptionNumber;
        optionPos := optionPos + Ext(optionDelta);
        optionPos := optionPos + Ext(optionValueLength);
        optionPos := optionPos + optionValueLength;
        optionPos := optionPos + 1;
        i := i + 1;
      }
      if i < |recs| {
        AtRecord(i);
      }
      position := optionPos;
    }

    /** `setOptionDelta`: the caller has made the space. */
    method SetOptionDelta(p: nat, delta: uint16)
      requires p + 1 + Ext(delta) <= pdu.Length
      modifies pdu
      ensures pdu[..] == Overwrite(old(pdu[..]), p, DeltaHeader(old(pdu[p]), delta))
    {
      hide Overwrite, DeltaHeader;
      var optionPosition := p;
      var h := Lower(pdu[p]);
      ghost var s, x: byte, at := pdu[..], Nibble(delta) * 16 + h, p + 1;
      ghost var s1 := s[p := x];
      pdu[p] := h;
      if delta < 13 {
        pdu[p] := delta * 16 + h;
        OverwriteNone(s1, at);
        assert pdu[..] == s1;
      } else if delta < 269 {
        pdu[p] := 13 * 16 + h;
        assert pdu[..] == s1;
        optionPosition := optionPosition + 1;
        pdu[optionPosition] := delta - 13;
        OverwriteOne(s1, at, delta - 13);
      } else {
        pdu[p] := 14 * 16 + h;
        assert pdu[..] == s1;
        var to := Store16(delta - 269);
        optionPosition := optionPosition + 1;
        Copy(optionPosition, to);
      }
      assert pdu[..] == Overwrite(s1, at, ExtBytes(delta));
      WrittenDelta(s, p, delta);
    }

    /** `memcpy(&_pdu[to], from, n)`. */
    method Copy(to: nat, from: seq<byte>)
      requires to + |from| <= pdu.Length
      modifies pdu
      ensures pdu[..] == Overwrite(old(pdu[..]), to, from)
    {
      forall i | 0 <= i < |from| {
        pdu[to + i] := from[i];
      }
    }

    /** First phase of `insertOption`: clears the header byte and sets the delta; returns the last position written. */
    method PutOptionDelta(headerStart: nat, delta: uint16) returns (insertionPosition: nat)
      requires headerStart + 1 + Ext(delta) <= pdu.Length
      modifies pdu
      ensures insertionPosition == headerStart + Ext(delta)
      ensures pdu[..] == Overwrite(old(pdu[..]), headerStart, [Nibble(delta) * 16] + ExtBytes(delta))
    {
      hide Overwrite;
      ghost var s, x: byte, at := pdu[..], Nibble(delta) * 16, headerStart + 1;
      ghost var s1 := s[headerStart := x];
      insertionPosition := headerStart;
      pdu[headerStart] := 0;
      if delta < 13 {
        pdu[headerStart] := delta * 16;
        OverwriteNone(s1, at);
        assert pdu[..] == s1;
      } else if delta < 269 {
        pdu[headerStart] := 13 * 16;
        assert pdu[..] == s1;
        insertionPosition := insertionPosition + 1;
        pdu[insertionPosition] := delta - 13;
        OverwriteOne(s1, at, delta - 13);
      } else {
        pdu[headerStart] := 14 * 16;
        assert pdu[..] == s1;
        insertionPosition := insertionPosition + 1;
        var to := Store16(delta - 269);
        Copy(insertionPosition, to);
        insertionPosition := insertionPosition + 1;
      }
      assert pdu[..] == Overwrite(s1, at, ExtBytes(delta));
      OverwriteOne(s, headerStart, x);
      OverwriteTwice(s, headerStart, [x], ExtBytes(delta));
    }

    /** Second phase: adds the length to the header byte; returns also the length, reduced by 269 in the last case. */
    method PutOptionLength(headerStart: nat, position: nat, length: uint16)
        returns (insertionPosition: nat, optionValueLength: uint16)
      requires headerStart <= position && position + 1 + Ext(length) <= pdu.Length
      requires Lower(pdu[headerStart]) == 0
      modifies pdu
      ensures insertionPosition == position + Ext(length) && optionValueLength == Copied(length)
      ensures pdu[..] == Overwrite(old(pdu[..])[headerStart := old(pdu[headerStart]) + Nibble(length)],
                                   position + 1, ExtBytes(length))
    {
      hide Overwrite;
      insertionPosition, optionValueLength := position, length;
      var h := pdu[headerStart];
      ghost var before: seq<byte> := pdu[..];
      ghost var s := before[headerStart := h + Nibble(length)];
      if optionValueLength < 13 {
        pdu[headerStart] := h + optionValueLength;
        assert pdu[..] == s;
        OverwriteNone(s, position + 1);
      } else if optionValueLength < 269 {
        pdu[headerStart] := h + 13;
        assert pdu[..] == s;
        insertionPosition := insertionPosition + 1;
        pdu[insertionPosition] := optionValueLength - 13;
        OverwriteOne(s, position + 1, optionValueLength - 13);
      } else {
        pdu[headerStart] := h + 14;
        assert pdu[..] == s;
        insertionPosition := insertionPosition + 1;
        optionValueLength := optionValueLength - 269;
        var to := Store16(optionValueLength);
        Copy(insertionPosition, to);
        insertionPosition := insertionPosition + 1;
      }
    }

    /** `insertOption`: header, extended bytes and as many value bytes as the code copies. */
    method InsertOption(position: nat, delta: uint16, value: OptionValue)
      requires position + |Header(delta, |value|)| + |value| <= pdu.Length
      modifies pdu
      ensures pdu[..] == Overwrite(old(pdu[..]), position, Header(delta, |value|) + value[..Copied(|value|)])
    {
      hide Header, Ext, ExtBytes, Nibble, Overwrite;
      HeaderParts(delta, |value|);
      ghost var s := pdu[..];
      var insertionPosition := PutOptionDelta(position, delta);
      ghost var s1 := pdu[..];
      DeltaWritten(s, s1, position, delta);
      var at, optionValueLength := PutOptionLength(position, insertionPosition, |value|);
      ghost var s2 := pdu[..];
      HeaderInTwoSteps(s, s1, s2, position, delta, |value|);
      Copy(at + 1, value[..optionValueLength]);
      OverwriteTwice(s, position, Header(delta, |value|), value[..optionValueLength]);
    }

    /** Writes an option whose space exists, and says what the buffer then holds there. */
    method PlaceOption(position: nat, delta: uint16, value: OptionValue) returns (ghost stored: OptionValue)
      requires position + |Header(delta, |value|)| + |value| <= pdu.Length
      modifies pdu
      ensures Stores(stored, value)
      ensures |EncodeRecord(Record(delta, stored))| == |Header(delta, |value|)| + |value|
      ensures At(pdu[..], position, EncodeRecord(Record(delta, stored)))
      ensures pdu[..position] == old(pdu[..position])
      ensures var next := position + |EncodeRecord(Record(delta, stored))|; pdu[next..] == old(pdu[next..])
    {
      InsertOption(position, delta, value);
      stored := PlacedOption(old(pdu[..]), position, delta, value);
    }

    /** The branch of `addOption` for an insertion at the end. Behind a payload the option is read as more payload. */
    method AppendOption(delta: uint16, value: OptionValue, n: uint16) returns (res: int, ghost stored: OptionValue)
      requires Valid() && |value| <= 65530
      modifies this, pdu
      ensures Sized() && constructedFromBuffer == old(constructedFromBuffer)
      ensures pdu == old(pdu) || fresh(pdu)
      ensures constructedFromBuffer ==> pdu == old(pdu) && bufferLength == old(bufferLength)
      ensures maxAddedOptionNumber == n && payload == old(payload)
      ensures res == 0 || res == 1
      ensures constructedFromBuffer ==>
                (res == 0 <==> old(pduLength) + |Header(delta, |value|)| + |value| <= bufferLength)
      ensures res == 0 ==> Stores(stored, value) && numOptions == old(numOptions) + 1
      ensures res == 0 && payload == [] ==>
                recs == old(recs) + [Record(delta, stored)] && Wire(Bytes(), recs, payload)
      ensures res == 0 && payload != [] ==>
                recs == old(recs) && Wire(Bytes(), recs, payload + EncodeRecord(Record(delta, stored)))
      ensures res == 0 ==> Head(Bytes()) == old(Head(Bytes()))
      ensures res == 1 ==> Bytes() == old(Bytes()) && recs == old(recs) && numOptions == old(numOptions)
      ensures Valid() <==> res == 1 || payload == []
    {
      hide Encode, EncodeRecord, Header, Wire, Stores, Tail;
      ghost var before := Bytes();
      maxAddedOptionNumber := n;
      var ok;
      ok, stored := AppendBytes(delta, value);
      if !ok {
        return 1, [];
      }
      numOptions := numOptions + 1;
      if payload == [] {
        WireAppend(before, Bytes(), recs, Record(delta, stored));
        recs := recs + [Record(delta, stored)];
      } else {
        WireLongerPayload(before, Bytes(), recs, payload, EncodeRecord(Record(delta, stored)));
        RecordSize(delta, stored);
        OneLength(before, Bytes(), recs, payload, EncodeRecord(Record(delta, stored)));
      }
      res := 0;
    }

    /** An option behind the last byte. */
    method AppendBytes(delta: uint16, value: OptionValue) returns (ok: bool, ghost stored: OptionValue)
      requires Sized()
      modifies this`pdu, this`bufferLength, this`pduLength, pdu
      ensures Sized() && (pdu == old(pdu) || fresh(pdu))
      ensures constructedFromBuffer ==> pdu == old(pdu) && bufferLength == old(bufferLength)
      ensures constructedFromBuffer ==>
                (ok <==> old(pduLength) + |Header(delta, |value|)| + |value| <= bufferLength)
      ensures ok ==> Stores(stored, value) && Bytes() == old(Bytes()) + EncodeRecord(Record(delta, stored))
      ensures !ok ==> pdu == old(pdu) && pduLength == old(pduLength) && Bytes() == old(Bytes())
    {
      hide EncodeRecord, Header, Stores, At;
      var position := pduLength;
      ghost var before := Bytes();
      var newLength := pduLength + |Header(delta, |value|)| + |value|;
      ok := Reserve(newLength);
      if !ok {
        return false, [];
      }
      assert pdu[..position] == before;
      pduLength := newLength;
      stored := PlaceOption(position, delta, value);
      JoinAt(pdu[..], position, EncodeRecord(Record(delta, stored)));
    }

    /** Makes the PDU longer and moves everything from `position` on up to its new end. */
    method OpenGap(position: nat, mallocLength: nat) returns (ok: bool)
      requires Sized() && position <= pduLength
      modifies this`pdu, this`bufferLength, this`pduLength, pdu
      ensures Sized() && (pdu == old(pdu) || fresh(pdu))
      ensures constructedFromBuffer ==> pdu == old(pdu) && bufferLength == old(bufferLength)
      ensures constructedFromBuffer ==> (ok <==> old(pduLength) + mallocLength <= bufferLength)
      ensures ok ==> pduLength == old(pduLength) + mallocLength
      ensures ok ==> pdu[..position] == old(pdu[..position])
      ensures ok ==> At(pdu[..], position + mallocLength, old(pdu[position..pduLength]))
      ensures !ok ==> pdu == old(pdu) && pduLength == old(pduLength) && Bytes() == old(Bytes())
    {
      hide At, ShiftedUp;
      ghost var before, oldLength := pdu[..], pduLength;
      ok := Reserve(pduLength + mallocLength);
      if ok {
        ghost var s := pdu[..];
        assert s[..oldLength] == before[..oldLength];
        pduLength := pduLength + mallocLength;
        var shiftAmount := pduLength - (position + mallocLength);
        ShiftPDUUp(mallocLength, shiftAmount);
        GapOpened(before, s, pdu[..], position, oldLength, mallocLength);
      }
    }

    /** Moves the header byte of the option behind the gap next to what stays of it, and sets its new delta. */
    method RebaseNext(position: nat, optionDeltaAdjustment: int, newDelta: uint16, ghost r: Record,
                      ghost rest: seq<byte>)
      requires At(pdu[..], position, EncodeRecord(r) + rest)
      requires Ext(newDelta) - Ext(r.delta) == optionDeltaAdjustment <= 0
      modifies pdu
      ensures At(pdu[..], position - optionDeltaAdjustment, EncodeRecord(Record(newDelta, r.value)) + rest)
      ensures pdu[..position] == old(pdu[..position])
    {
      hide EncodeRecord, At, Overwrite, DeltaHeader;
      RebaseInPlace(pdu[..], position, position - optionDeltaAdjustment, r, rest, newDelta);
      var nextHeaderPos := position;
      pdu[nextHeaderPos - optionDeltaAdjustment] := pdu[nextHeaderPos];
      nextHeaderPos := nextHeaderPos - optionDeltaAdjustment;
      SetOptionDelta(nextHeaderPos, newDelta);
    }

    /** Opens a gap and re-bases the option r behind it, whose header then ends the gap. */
    method OpenAndRebase(position: nat, mallocLength: nat, newDelta: uint16, adjustment: int, ghost r: Record,
                         ghost rest: seq<byte>)
        returns (ok: bool)
      requires Sized() && position <= pduLength && Bytes()[position..] == EncodeRecord(r) + rest
      requires adjustment == Ext(newDelta) - Ext(r.delta) <= 0
      modifies this`pdu, this`bufferLength, this`pduLength, pdu
      ensures Sized() && (pdu == old(pdu) || fresh(pdu))
      ensures constructedFromBuffer ==> pdu == old(pdu) && bufferLength == old(bufferLength)
      ensures constructedFromBuffer ==> (ok <==> old(pduLength) + mallocLength <= bufferLength)
      ensures ok ==> pduLength == old(pduLength) + mallocLength && pdu[..position] == old(pdu[..position])
      ensures ok ==> At(pdu[..], position + mallocLength - adjustment, EncodeRecord(Record(newDelta, r.value)) + rest)
      ensures !ok ==> pdu == old(pdu) && pduLength == old(pduLength) && Bytes() == old(Bytes())
    {
      hide EncodeRecord, Ext, At;
      ghost var before := pdu[..position];
      ok := OpenGap(position, mallocLength);
      if ok {
        ghost var a2 := pdu[..];
        RebaseNext(position + mallocLength, adjustment, newDelta, r, rest);
        assert pdu[..position] == pdu[..position + mallocLength][..position] == a2[..position];
      }
    }

    /** Opens the gap, re-bases the option r behind it and writes the new option into it. */
    method InsertIntoGap(position: nat, delta: uint16, value: OptionValue, newDelta: uint16, adjustment: int,
                         ghost r: Record, ghost rest: seq<byte>)
        returns (ok: bool, ghost stored: OptionValue)
      requires Sized() && position <= pduLength && Bytes()[position..] == EncodeRecord(r) + rest
      requires adjustment == Ext(newDelta) - Ext(r.delta) <= 0 <= |Header(delta, |value|)| + |value| + adjustment
      modifies this`pdu, this`bufferLength, this`pduLength, pdu
      ensures Sized() && (pdu == old(pdu) || fresh(pdu))
      ensures constructedFromBuffer ==> pdu == old(pdu) && bufferLength == old(bufferLength)
      ensures constructedFromBuffer ==>
                (ok <==> old(pduLength) + |Header(delta, |value|)| + |value| + adjustment <= bufferLength)
      ensures ok ==> Stores(stored, value)
      ensures ok ==> Bytes() == old(Bytes())[..position] + EncodeRecord(Record(delta, stored))
                                + (EncodeRecord(Record(newDelta, r.value)) + rest)
      ensures !ok ==> pdu == old(pdu) && pduLength == old(pduLength) && Bytes() == old(Bytes())
    {
      RecordSize(r.delta, r.value);
      RecordSize(newDelta, r.value);
      hide EncodeRecord, Header, Stores, Ext, At;
      ghost var before := Bytes();
      var mallocLength := |Header(delta, |value|)| + |value| + adjustment;
      ok := OpenAndRebase(position, mallocLength, newDelta, adjustment, r, rest);
      if !ok {
        return false, [];
      }
      ghost var a3 := pdu[..];
      stored := PlaceOption(position, delta, value);
      AfterInsertion(before, a3, pdu[..], position,
                     EncodeRecord(Record(delta, stored)), EncodeRecord(Record(newDelta, r.value)) + rest);
    }

    /** What an insertion in front of record i meets. */
    lemma BeforeRecord(i: nat, n: uint16, value: OptionValue) returns (rest: seq<byte>)
      requires Valid() && i < |recs|
      requires NumberBefore(i) <= n < NumberBefore(i) + recs[i].delta < 0x1_0000
      ensures var s, p, r, prev := pdu[..], PositionOf(i), recs[i], NumberBefore(i);
              && Readable(s, p) && DeltaAt(s, p) == r.delta
              && p <= pduLength && p == OptionsStart(Bytes()) + |Encode(recs[..i])|
              && Bytes()[p..] == EncodeRecord(r) + rest && rest == Encode(recs[i + 1..]) + Tail(payload)
              && Ext(prev + r.delta - n) <= Ext(r.delta)
              && InsertedSize(prev, n, prev + r.delta, |value|)
                 == |Header(n - prev, |value|)| + |value| + Ext(prev + r.delta - n) - Ext(r.delta) >= 0
    {
      AtRecord(i);
      RoomForInsertion(NumberBefore(i), n, NumberBefore(i) + recs[i].delta);
      RecordSize(n - NumberBefore(i), value);
      rest := WireCut(Bytes(), recs, payload, i, PositionOf(i));
    }

    /** The branch of `addOption` for an insertion in front of record i. The pointer to a payload is not moved. */
    method InsertBefore(position: nat, prev: uint16, n: uint16, value: OptionValue, ghost i: nat)
        returns (res: int, ghost stored: OptionValue)
      requires Valid() && |value| <= 65530
      requires i < |recs| && position == PositionOf(i)
      requires prev == NumberBefore(i) <= n < prev + recs[i].delta < 0x1_0000
      modifies this, pdu
      ensures Sized() && constructedFromBuffer == old(constructedFromBuffer)
      ensures pdu == old(pdu) || fresh(pdu)
      ensures constructedFromBuffer ==> pdu == old(pdu) && bufferLength == old(bufferLength)
      ensures maxAddedOptionNumber == old(maxAddedOptionNumber) && payload == old(payload)
      ensures res == 0 || res == 1
      ensures constructedFromBuffer ==>
                (res == 0 <==>
                   old(pduLength) + InsertedSize(prev, n, prev + old(recs)[i].delta, |value|) <= bufferLength)
      ensures res == 0 ==>
                && Stores(stored, value) && numOptions == old(numOptions) + 1
                && recs == old(recs)[..i] + [Record(n - prev, stored),
                                             Record(prev + old(recs)[i].delta - n, old(recs)[i].value)]
                           + old(recs)[i + 1..]
                && Wire(Bytes(), recs, payload) && Head(Bytes()) == old(Head(Bytes()))
      ensures res == 1 ==> Bytes() == old(Bytes()) && recs == old(recs) && numOptions == old(numOptions)
      ensures Valid() <==> res == 1 || payload == [] || (pdu == old(pdu) && pduLength == old(pduLength))
    {
      hide Encode, EncodeRecord, Header, Wire, Stores, Readable, DeltaAt, LengthAt, TotalAt, Ext, At,
           OptionsStart, Head, Lower, Last, PositionOf, NumberBefore, GetTokenLength, Tail;
      ghost var before, r := Bytes(), recs[i];
      ghost var rest := BeforeRecord(i, n, value);
      var optionDelta := n - prev;
      var nextOptionDelta := GetOptionDelta(position);
      var nextOptionNumber := prev + nextOptionDelta;
      var newNextOptionDelta := nextOptionNumber - n;
      var optionDeltaAdjustment := Ext(newNextOptionDelta) - Ext(nextOptionDelta);
      assert newNextOptionDelta == prev + r.delta - n;
      var ok;
      ok, stored := InsertIntoGap(position, optionDelta, value, newNextOptionDelta, optionDeltaAdjustment, r, rest);
      if !ok {
        return 1, [];
      }
      numOptions := numOptions + 1;
      ghost var r1, r2 := Record(optionDelta, stored), Record(newNextOptionDelta, r.value);
      recs := recs[..i] + [r1, r2] + recs[i + 1..];
      WireInsert(before, Bytes(), old(recs), payload, i, position, r1, r2);
      res := 0;
    }

    lemma LastNumber()
      ensures NumberBefore(|recs|) == Last(0, recs)
    {
      assert recs[..|recs|] == recs;
    }

    /** What the two branches of `addOption` write is AddRecord: in front of record i, or at the end. */
    lemma AddsBefore(i: nat, n: uint16, value: OptionValue)
      requires Valid() && Numbered(recs) && i < |recs|
      requires n < maxAddedOptionNumber && NumberBefore(i) <= n < NumberBefore(i) + recs[i].delta
      ensures NumberBefore(i) + recs[i].delta < 0x1_0000
      ensures var prev := NumberBefore(i);
              && (forall v: OptionValue :: AddRecord(recs, maxAddedOptionNumber, n, v)
                    == recs[..i] + [Record(n - prev, v), Record(prev + recs[i].delta - n, recs[i].value)]
                       + recs[i + 1..])
              && NextMax(recs, maxAddedOptionNumber, n) == maxAddedOptionNumber
              && pduLength + InsertedSize(prev, n, prev + recs[i].delta, |value|)
                 == |Head(Bytes())| + |Encode(AddRecord(recs, maxAddedOptionNumber, n, value))| + |Tail(payload)|
    {
      hide Encode, EncodeRecord, Header, Ext, AddRecord, Wire, Last, Tail;
      var prev := NumberBefore(i);
      LastSplit(recs, i);
      forall v: OptionValue
        ensures AddRecord(recs, maxAddedOptionNumber, n, v)
             == recs[..i] + [Record(n - prev, v), Record(prev + recs[i].delta - n, recs[i].value)] + recs[i + 1..]
      {
        AddRecordAt(recs, maxAddedOptionNumber, n, v, i);
      }
      WireLength(Bytes(), recs, payload);
      SizeBefore(recs, i, prev, n, value);
    }

    lemma AddsLast(prev: uint16, n: uint16, value: OptionValue)
      requires Valid() && payload == []
      requires if maxAddedOptionNumber <= n || recs == [] then prev == maxAddedOptionNumber
               else prev == Last(0, recs) <= n
      ensures forall v: OptionValue ::
                AddRecord(recs, maxAddedOptionNumber, n, v) == recs + [Record(Wrap16(n - prev), v)]
      ensures NextMax(recs, maxAddedOptionNumber, n) == n
      ensures pduLength + |Header(Wrap16(n - prev), |value|)| + |value|
           == |Head(Bytes())| + |Encode(AddRecord(recs, maxAddedOptionNumber, n, value))|
    {
      if !(maxAddedOptionNumber <= n || recs == []) {
        forall v: OptionValue
          ensures AddRecord(recs, maxAddedOptionNumber, n, v) == recs + [Record(Wrap16(n - prev), v)]
        {
          InsertLast(recs, n, v);
        }
      }
      var r := Record(Wrap16(n - prev), value);
      WireLength(Bytes(), recs, []);
      EncodeConcat(recs, [r]);
      assert Encode([r]) == EncodeRecord(r);
      RecordSize(r.delta, value);
    }

    /** `addOption`. On success the records are those of AddRecord; with a fixed buffer it succeeds exactly when
        these fit. A failure leaves the message alone, but `maxAddedOptionNumber` moves on all the same. Behind a
        payload a number not below the maximum goes to the end of the PDU, where the option is read as more payload;
        any other goes to its place, but the pointer to the payload stays where it was. */
    method AddOption(insertedOptionNumber: uint16, optionValue: OptionValue)
        returns (res: int, ghost stored: OptionValue)
      requires Valid() && Numbered(recs) && |optionValue| <= 65530
      requires payload == [] || maxAddedOptionNumber <= insertedOptionNumber || insertedOptionNumber < Last(0, recs)
      modifies this, pdu
      ensures Sized() && payload == old(payload) && constructedFromBuffer == old(constructedFromBuffer)
      ensures pdu == old(pdu) || fresh(pdu)
      ensures constructedFromBuffer ==> pdu == old(pdu) && bufferLength == old(bufferLength)
      ensures res == 0 || res == 1
      ensures res == 0 ==> Stores(stored, optionValue) && numOptions == old(numOptions) + 1
      ensures var max := old(maxAddedOptionNumber);
              var behind := old(payload) != [] && max <= insertedOptionNumber;
              var delta := Wrap16(insertedOptionNumber - max);
              && (constructedFromBuffer ==>
                    (res == 0 <==>
                       if behind then old(pduLength) + |Header(delta, |optionValue|)| + |optionValue| <= bufferLength
                       else |old(Head(Bytes()))|
                            + |Encode(AddRecord(old(recs), max, insertedOptionNumber, optionValue))|
                            + (if payload == [] then 0 else 1 + |payload|) <= bufferLength))
              && (res == 0 && behind ==>
                    && recs == old(recs) && !Valid()
                    && Wire(Bytes(), recs, payload + EncodeRecord(Record(delta, stored))))
              && (res == 0 && !behind ==>
                    && recs == AddRecord(old(recs), max, insertedOptionNumber, stored)
                    && Wire(Bytes(), recs, payload)
                    && (Valid() <==> payload == [] || (pdu == old(pdu) && pduLength == old(pduLength))))
      ensures res == 0 ==> Head(Bytes()) == old(Head(Bytes()))
      ensures res == 1 ==>
                Valid() && Bytes() == old(Bytes()) && recs == old(recs) && numOptions == old(numOptions)
      ensures maxAddedOptionNumber == NextMax(old(recs), old(maxAddedOptionNumber), insertedOptionNumber)
    {
      hide Encode, EncodeRecord, Header, Wire, Stores, Last, PositionOf, NumberBefore, InsertRecord, AddRecord,
           NextMax, Head, Tail;
      var insertionPosition, prevOptionNumber, i := FindInsertionPosition(insertedOptionNumber);
      var optionDelta := Wrap16(insertedOptionNumber - prevOptionNumber);
      TailIs(payload);
      LastNumber();
      if i < |recs| {
        AddsBefore(i, insertedOptionNumber, optionValue);
      } else if payload == [] {
        AddsLast(prevOptionNumber, insertedOptionNumber, optionValue);
      } else {
        MaxMovesOn(recs, maxAddedOptionNumber, insertedOptionNumber);
      }
      if insertionPosition == pduLength {
        res, stored := AppendOption(optionDelta, optionValue, insertedOptionNumber);
      } else {
        res, stored := InsertBefore(insertionPosition, prevOptionNumber, insertedOptionNumber, optionValue, i);
      }
    }

    /** On a valid object `getOptions` shows exactly the options of the message. */
    lemma OptionsShown()
      requires Valid()
      ensures Parsed() && Read() == Contents()
      ensures Walkable(pdu[..], HDR_SIZE + GetTokenLength(), numOptions)
      ensures Shows(pdu[..], Walk(pdu[..], HDR_SIZE + GetTokenLength(), numOptions, 0), Contents())
    {
      hide Encode, Walk, Walkable, Shows, Options;
      var s, p := pdu[..], HDR_SIZE + GetTokenLength();
      WireLength(Bytes(), recs, payload);
      AtPrefix(s, pduLength, p, Encode(recs));
      WalkDecodes(s, p, recs, 0);
    }

    lemma ReadShown()
      requires Parsed()
      ensures Walkable(pdu[..], HDR_SIZE + GetTokenLength(), numOptions) && |Read()| == numOptions
      ensures Shows(pdu[..], Walk(pdu[..], HDR_SIZE + GetTokenLength(), numOptions, 0), Read())
    {
      WalkInside(pdu[..], HDR_SIZE + GetTokenLength(), numOptions, 0);
    }

    // Token and payload

    /** The last step of `setToken`: the length nibble, by `setTokenLength`, which refuses a length above 8. */
    method SetTokenLength(token: seq<byte>, ghost before: seq<byte>)
      requires 0 <= pduLength <= pdu.Length && TokenPlaced(before, pdu[..], token, pduLength)
      modifies pdu
      ensures Bytes() == StoredToken(before, token)
    {
      if |token| > 8 {
        TokenPartsKept(before, pdu[..], token, pduLength);
        assert Bytes() == pdu[..][..pduLength];
        return;
      }
      TokenParts(before, pdu[..], token, pduLength);
      pdu[0] := Upper(pdu[0]) * 16 + |token|;
    }

    /** The branch of `setToken` for a token of the old length. */
    method OverwriteToken(token: seq<byte>)
      requires Sized() && HDR_SIZE + |token| == OptionsStart(Bytes()) <= pduLength && |token| <= 8
      modifies pdu
      ensures Bytes() == ReplaceToken(old(Bytes()), token)
    {
      hide TokenPlaced, Overwrite, At, ReplaceToken;
      ghost var before := Bytes();
      assert pdu[..HDR_SIZE] == before[..HDR_SIZE];
      AtPrefix(pdu[..], pduLength, HDR_SIZE + |token|, before[OptionsStart(before)..]);
      PlacedBehindGap(before, pdu[..], token, pduLength);
      Copy(HDR_SIZE, token);
      SetTokenLength(token, before);
    }

    /** The branch of `setToken` that makes the PDU longer. */
    method GrowToken(token: seq<byte>, oldTokenLength: nat) returns (ok: bool)
      requires Sized() && HDR_SIZE + oldTokenLength == OptionsStart(Bytes()) <= pduLength
      requires oldTokenLength < |token|
      modifies this`pdu, this`bufferLength, this`pduLength, pdu
      ensures Sized() && (pdu == old(pdu) || fresh(pdu))
      ensures constructedFromBuffer ==> pdu == old(pdu) && bufferLength == old(bufferLength)
      ensures constructedFromBuffer ==> (ok <==> old(pduLength) - oldTokenLength + |token| <= bufferLength)
      ensures ok ==>
                pduLength == old(pduLength) - oldTokenLength + |token| && Bytes() == StoredToken(old(Bytes()), token)
      ensures !ok ==> pdu == old(pdu) && pduLength == old(pduLength) && Bytes() == old(Bytes())
    {
      hide StoredToken, TokenPlaced, At, Overwrite;
      ghost var before := Bytes();
      ok := OpenGap(HDR_SIZE + oldTokenLength, |token| - oldTokenLength);
      if ok {
        assert pdu[..HDR_SIZE] == pdu[..HDR_SIZE + oldTokenLength][..HDR_SIZE] == before[..HDR_SIZE];
        PlacedBehindGap(before, pdu[..], token, pduLength);
        Copy(HDR_SIZE, token);
        SetTokenLength(token, before);
      }
    }

    /** The branch that makes it shorter. */
    method ShrinkToken(token: seq<byte>, oldTokenLength: nat) returns (ok: bool)
      requires Sized() && HDR_SIZE + oldTokenLength == OptionsStart(Bytes()) <= pduLength
      requires 0 < |token| < oldTokenLength <= 8
      modifies this`pdu, this`bufferLength, this`pduLength, pdu
      ensures Sized() && (pdu == old(pdu) || fresh(pdu))
      ensures constructedFromBuffer ==> ok && pdu == old(pdu) && bufferLength == old(bufferLength)
      ensures ok ==> Bytes() == StoredToken(old(Bytes()), token)
    {
      hide StoredToken, TokenPlaced, Overwrite, ShiftedDown, At, OptionsStart;
      ghost var before, s := Bytes(), pdu[..];
      var oldPDULength := pduLength;
      pduLength := pduLength - oldTokenLength + |token|;
      Copy(HDR_SIZE, token);
      ghost var a := pdu[..];
      var startLocation := HDR_SIZE + |token|;
      var shiftOffset, shiftAmount := oldPDULength - pduLength, oldPDULength - oldTokenLength - HDR_SIZE;
      ShiftPDUDown(startLocation, shiftOffset, shiftAmount);
      PlacedBeforeShift(before, s, a, pdu[..], token, pduLength);
      ok := Reserve(pduLength);
      if ok {
        SetTokenLength(token, before);
      }
    }

    /** `setToken`. The options, the payload bytes and everything else behind the token stay; the payload pointer
        is not moved. A token of another length needs a PDU of at most 255 bytes, or a fixed buffer without room: the
        failure then stores the old length cut to 8 bits. A token above eight bytes is stored without its length. */
    method SetToken(token: seq<byte>) returns (res: int)
      requires Valid() && |token| < 0x100
      requires
        || |token| == GetTokenLength() || token == [] || pduLength <= 255
        || (constructedFromBuffer && pduLength - GetTokenLength() + |token| > bufferLength)
      modifies this`pdu, this`bufferLength, this`pduLength, pdu
      ensures pdu == old(pdu) || fresh(pdu)
      ensures res == 0 || token == [] || old(pduLength) <= 255 ==> Sized()
      ensures constructedFromBuffer ==> pdu == old(pdu) && bufferLength == old(bufferLength)
      ensures res == 0 || res == 1
      ensures constructedFromBuffer ==>
                (res == 0 <==> token != [] && old(pduLength) - old(GetTokenLength()) + |token| <= bufferLength)
      ensures token != [] && |token| == old(GetTokenLength()) ==> res == 0
      ensures res == 0 ==>
                Bytes() == StoredToken(old(Bytes()), token) && (GetTokenLength() == |token| <==> |token| <= 8)
      ensures res == 0 && |token| <= 8 ==> Bytes() == ReplaceToken(old(Bytes()), token) && Wire(Bytes(), recs, payload)
      ensures res == 0 && |token| <= 8 ==> (Valid() <==> payload == [] || |token| == old(GetTokenLength()))
      ensures res == 1 && token == [] ==> Valid() && Bytes() == old(Bytes())
      ensures res == 1 && token != [] && constructedFromBuffer ==>
                pdu[..] == old(pdu[..]) && pduLength == old(pduLength) % 0x100
      ensures res == 1 && token != [] && (constructedFromBuffer || |token| > old(GetTokenLength())) ==>
                (Valid() && Bytes() == old(Bytes()) <==> old(pduLength) <= 255)
    {
      hide Wire, Encode, Tail, ReplaceToken, StoredToken, Overwrite, At;
      if |token| == 0 {
        return 1;
      }
      ghost var before := Bytes();
      TokenOutcome(before, recs, payload, token);
      var oldTokenLength := GetTokenLength();
      if |token| == oldTokenLength {
        OverwriteToken(token);
        assert |Bytes()| == pduLength && pdu[0] == Bytes()[0];
        return 0;
      }
      var oldPDULength := pduLength % 0x100;
      var newLength := pduLength - oldTokenLength + |token|;
      var ok;
      if newLength > oldPDULength {
        if constructedFromBuffer && newLength > bufferLength {
          pduLength := oldPDULength;
          return 1;
        }
        TokenShiftInsideIffShort(pduLength, oldTokenLength, |token|);
        assert LowestShiftSource(pduLength, oldTokenLength, |token|) >= 0;
        ok := GrowToken(token, oldTokenLength);
      } else {
        ok := ShrinkToken(token, oldTokenLength);
      }
      assert |Bytes()| == pduLength;
      assert ok ==> pdu[0] == Bytes()[0];
      return if ok then 0 else 1;
    }

    /** The part of `mallocPayload` that changes the buffer: `body` is where the options end. */
    method ResizePayload(len: nat, ghost body: nat) returns (ok: bool)
      requires Sized() && len > 0 && len != payloadLength && HDR_SIZE <= body
      requires payloadPointer == if payload == [] then NULL else body + 1
      requires payloadLength == |payload|
      requires if payload == [] then pduLength == body else HasPayload(Bytes(), body, payload)
      modifies this`pdu, this`bufferLength, this`pduLength, this`payloadPointer, this`payloadBlock, this`payloadLength,
               pdu
      ensures Sized() && (pdu == old(pdu) || fresh(pdu))
      ensures constructedFromBuffer ==> pdu == old(pdu) && bufferLength == old(bufferLength)
      ensures constructedFromBuffer ==> (ok <==> body + 1 + len <= bufferLength)
      ensures ok ==>
                && payloadPointer == body + 1 && payloadLength == len && pduLength == body + 1 + len
                && payloadBlock == (if payload == [] then pdu else old(payloadBlock))
                && Bytes()[..body] == old(Bytes())[..body] && Bytes()[body] == PAYLOAD_MARKER
                && forall i :: 0 <= i < len && i < |payload| ==> Bytes()[body + 1 + i] == payload[i]
      ensures !ok ==> pdu == old(pdu) && pduLength == old(pduLength) && Bytes() == old(Bytes())
      ensures !ok ==> payloadPointer == old(payloadPointer) && payloadBlock == old(payloadBlock)
      ensures !ok ==> payloadLength == old(payloadLength)
    {
      ghost var before := Bytes();
      var markerSpace, payloadSpace := 1, len;
      if payloadLength != 0 {
        markerSpace := 0;
        payloadSpace := len - payloadLength;
      }
      var newLen := pduLength + payloadSpace + markerSpace;
      assert newLen == body + 1 + len;
      ok := Reserve(newLen);
      if !ok {
        return;
      }
      ghost var kept := pdu[..];
      if payloadPointer == NULL {
        pdu[pduLength] := 0xFF;
        payloadPointer, payloadBlock := pduLength + 1, pdu;
      }
      pduLength := newLen;
      payloadLength := len;
      PayloadMoved(before, kept, pdu[..], body, payload, newLen);
    }

    /** `mallocPayload`: room for a payload of len bytes; what an existing payload had is kept as far as it fits. The
        pointer to an existing payload is not taken anew, also when the block has moved. */
    method MallocPayload(len: nat) returns (pointer: int)
      requires Shaped()
      modifies this`pdu, this`bufferLength, this`pduLength, this`payloadPointer, this`payloadBlock, this`payloadLength,
               this`payload, pdu
      ensures Shaped() && (pdu == old(pdu) || fresh(pdu))
      ensures constructedFromBuffer || len == old(|payload|) || pointer == NULL ==> pdu == old(pdu)
      ensures constructedFromBuffer ==> bufferLength == old(bufferLength)
      ensures constructedFromBuffer ==>
                (pointer != NULL <==> len > 0 && old(BodyEnd(Bytes(), payload)) + 1 + len <= bufferLength)
      ensures 0 < len == old(|payload|) ==> pointer != NULL
      ensures pointer != NULL ==>
                var body := old(BodyEnd(Bytes(), payload));
                && pointer == payloadPointer == body + 1 && |payload| == len > 0
                && payloadBlock == (if old(payload) == [] then pdu else old(payloadBlock))
                && 0 <= body && HasPayload(Bytes(), body, payload) && Bytes()[..body] == old(Bytes())[..body]
                && forall i :: 0 <= i < len && i < old(|payload|) ==> payload[i] == old(payload[i])
      ensures pointer == NULL ==>
                Bytes() == old(Bytes()) && payload == old(payload) && payloadBlock == old(payloadBlock)
    {
      hide Encode, Wire, Tail, BodyEnd;
      WireTail(Bytes(), recs, payload);
      if len == 0 {
        return NULL;
      }
      if len == payloadLength {
        if payloadPointer == NULL {
          return NULL;
        }
        return payloadPointer;
      }
      ghost var before, body := Bytes(), BodyEnd(Bytes(), payload);
      var ok := ResizePayload(len, body);
      if !ok {
        return NULL;
      }
      ghost var newPayload := Bytes()[body + 1..];
      WirePayload(before, recs, payload, Bytes(), newPayload);
      payload := newPayload;
      pointer := payloadPointer;
    }

    /** `memcpy` through a pointer into a block. What would be written behind the block is not modelled. */
    method CopyInto(block: array<byte>, at: nat, from: seq<byte>)
      modifies block
      ensures at + |from| <= block.Length ==> block[..] == Overwrite(old(block[..]), at, from)
    {
      forall i | 0 <= i < |from| && at + i < block.Length {
        block[at + i] := from[i];
      }
    }

    /** `setPayload`: the message gets a payload of this length or nothing has changed, with the exact condition for a
        fixed buffer. The value itself arrives when the payload pointer points into the buffer; from a valid object
        that is so unless an existing payload was resized and the block moved. */
    method SetPayload(value: seq<byte>) returns (res: int)
      requires Shaped()
      modifies this`pdu, this`bufferLength, this`pduLength, this`payloadPointer, this`payloadBlock, this`payloadLength,
               this`payload, pdu, payloadBlock
      ensures Shaped() && (pdu == old(pdu) || fresh(pdu))
      ensures constructedFromBuffer || |value| == old(|payload|) || res == 1 ==> pdu == old(pdu)
      ensures constructedFromBuffer ==> bufferLength == old(bufferLength)
      ensures res == 0 || res == 1
      ensures constructedFromBuffer ==>
                (res == 0 <==> value != [] && old(BodyEnd(Bytes(), payload)) + 1 + |value| <= bufferLength)
      ensures value != [] && |value| == old(|payload|) ==> res == 0
      ensures res == 0 ==>
                var body := old(BodyEnd(Bytes(), payload));
                && Arrives(payload, old(payload), value, payloadBlock == pdu)
                && payloadBlock == (if old(payload) == [] then pdu else old(payloadBlock))
                && 0 <= body && HasPayload(Bytes(), body, payload) && Bytes()[..body] == old(Bytes())[..body]
      ensures res == 1 ==> Bytes() == old(Bytes()) && payload == old(payload) && payloadBlock == old(payloadBlock)
      ensures old(Valid()) ==> (Valid() <==> res == 1 || old(payload) == [] || pdu == old(pdu))
      ensures old(Valid()) && Valid() && res == 0 ==> payload == value
    {
      hide Encode, Wire, At, Tail, Overwrite, BodyEnd, Shaped;
      var payloadPointer := MallocPayload(|value|);
      if payloadPointer == NULL {
        return 1;
      }
      FillPayload(value);
      return 0;
    }

    /** The copy of `setPayload` through the payload pointer. */
    method FillPayload(value: seq<byte>)
      requires Shaped() && value != [] && |payload| == |value|
      modifies this`payload, pdu, payloadBlock
      ensures Shaped() && payload == if payloadBlock == pdu then value else old(payload)
      ensures var body := payloadPointer - 1;
              0 <= body && HasPayload(Bytes(), body, payload) && Bytes()[..body] == old(Bytes())[..body]
    {
      hide Encode, Wire, At, Tail, Overwrite, BodyEnd;
      WireTail(Bytes(), recs, payload);
      ghost var a := pdu[..];
      CopyInto(payloadBlock, payloadPointer, value);
      if payloadBlock == pdu {
        PayloadCopied(a, pdu[..], pduLength, recs, payload, payloadPointer - 1, value);
        payload := value;
      } else {
        assert pdu[..] == a;
      }
    }

    // Reading

    /** The header checks of `validate`: version, token length, room for the token, code. */
    method HeaderAccepted() returns (ok: bool)
      requires 0 <= pduLength <= pdu.Length
      ensures ok <==> HeaderOk(Bytes())
    {
      if pduLength < 4 {
        return false;
      }
      var version := GetVersion();
      if version != 1 {
        return false;
      }
      var tokenLength := GetTokenLength();
      if tokenLength > 8 {
        return false;
      }
      if HDR_SIZE + tokenLength > pduLength {
        return false;
      }
      var code: int := GetCode();
      if code < 0x00 || (code > 0x1F && code < 0x41) || (code > 0x45 && code < 0x5F) || (code > 0x5F && code < 0x80)
         || (code > 0x86 && code < 0x8C) || code == 0x8E || (code > 0x8F && code < 0xA0) || code > 0xA5 {
        return false;
      }
      return true;
    }

    /** `validate`. The PDU is accepted when its header is and the option loop is; then the option count and the
        payload are recorded and the options can be walked. When nothing is narrowed, accepting means being a message
        of section 3 of RFC 7252, and makes the object valid. */
    method Validate() returns (res: int)
      requires 0 <= pduLength <= bufferLength <= pdu.Length && pduLength + 2 <= pdu.Length
      requires constructedFromBuffer && payloadPointer == NULL && payloadBlock == null && payloadLength == 0
      modifies this`payloadPointer, this`payloadBlock, this`payloadLength, this`numOptions, this`recs, this`payload
      ensures res == 0 || res == 1
      ensures res == 1 <==> HeaderOk(Bytes()) && Scan(pdu[..], pduLength, OptionsStart(Bytes()), 0).Accept?
      ensures res == 1 ==>
                && numOptions == Scan(pdu[..], pduLength, OptionsStart(Bytes()), 0).numOptions
                && payloadLength == Scan(pdu[..], pduLength, OptionsStart(Bytes()), 0).payloadLength
                && payloadPointer == (if payloadLength == 0 then NULL else pduLength - payloadLength)
                && payloadBlock == if payloadLength == 0 then null else pdu
      ensures res == 1 ==> Parsed()
      ensures HeaderOk(Bytes()) && NoWrap(pdu[..], pduLength, OptionsStart(Bytes())) ==>
                (IsMessage(Bytes()) <==> res == 1) && (res == 1 ==> Valid())
    {
      hide Scan, NoWrap, WellFormed, Wire, CodeOk, HeaderOk, Walkable, Encode, Tail, IsMessage, OptionsStart;
      var ok := HeaderAccepted();
      if !ok {
        return 0;
      }
      VerdictIsMeaning(Bytes(), pdu[..], pduLength);
      res := ScanOptions();
      if res == 1 {
        ScanWalks(pdu[..], pduLength, OptionsStart(Bytes()), 0);
      }
      if res == 1 && NoWrap(pdu[..], pduLength, OptionsStart(Bytes())) {
        recs, payload := AcceptedParts(Bytes(), pdu[..], pduLength);
      }
    }

    /** The option loop of `validate`. */
    method ScanOptions() returns (res: int)
      requires HDR_SIZE <= pduLength && pduLength + 2 <= pdu.Length && HDR_SIZE + GetTokenLength() <= pduLength
      requires payloadPointer == NULL && payloadBlock == null && payloadLength == 0
      modifies this`payloadPointer, this`payloadBlock, this`payloadLength, this`numOptions
      ensures res == 0 || res == 1
      ensures var v := Scan(pdu[..], pduLength, HDR_SIZE + GetTokenLength(), 0);
              && (res == 1 <==> v.Accept?)
              && (res == 1 ==> numOptions == v.numOptions && payloadLength == v.payloadLength
                               && payloadPointer == (if payloadLength == 0 then NULL else pduLength - payloadLength)
                               && payloadBlock == if payloadLength == 0 then null else pdu)
    {
      hide Scan;
      var optionNumber: uint16 := 0;
      var optionPos := HDR_SIZE + GetTokenLength();
      ghost var s := pdu[..];
      ghost var verdict := Scan(s, pduLength, optionPos, 0);
      ScanTurn(s, pduLength, optionPos, 0);
      if optionPos == pduLength {
        numOptions, payloadLength := 0, 0;
        return 1;
      }
      var bytesRemaining := pduLength - optionPos;
      var optionCount := 0;
      while true
        invariant HDR_SIZE <= optionPos <= pduLength && bytesRemaining == pduLength - optionPos && 0 <= optionCount
        invariant Scan(s, pduLength, optionPos, optionCount) == verdict
        decreases bytesRemaining
      {
        ScanTurn(s, pduLength, optionPos, optionCount);
        if bytesRemaining <= 0 {
          payloadPointer, payloadBlock, payloadLength, numOptions := NULL, null, 0, optionCount;
          return 1;
        }
        var optionHeader := pdu[optionPos];
        if optionHeader == 0xFF {
          if bytesRemaining > 1 {
            payloadPointer, payloadBlock := optionPos + 1, pdu;
            payloadLength, numOptions := bytesRemaining - 1, optionCount;
            return 1;
          }
          payloadPointer, payloadBlock, payloadLength := NULL, null, 0;
          return 0;
        }
        var upperNibble, lowerNibble := Upper(optionHeader), Lower(optionHeader);
        if upperNibble == 0x0F || lowerNibble == 0x0F {
          return 0;
        }
        bytesRemaining := bytesRemaining - 1;
        var headerBytesNeeded := Ext(upperNibble);
        if headerBytesNeeded > bytesRemaining {
          return 0;
        }
        headerBytesNeeded := headerBytesNeeded + Ext(lowerNibble);
        if headerBytesNeeded > bytesRemaining {
          return 0;
        }
        assert HeaderFits(s, pduLength, optionPos);
        var optionDelta := GetOptionDelta(optionPos);
        optionNumber := Wrap16(optionNumber + optionDelta);
        var optionValueLength := GetOptionValueLength(optionPos);
        var totalLength := 1;
        totalLength := totalLength + Ext(optionDelta);
        totalLength := totalLength + Ext(optionValueLength);
        totalLength := totalLength + optionValueLength;
        if optionPos + totalLength > pduLength {
          return 0;
        }
        bytesRemaining := bytesRemaining - totalLength;
        bytesRemaining := bytesRemaining + 1;
        optionPos := optionPos + totalLength;
        optionCount := optionCount + 1;
      }
    }

    /** One turn of the loop of `getOptions`. */
    method ReadOption(optionPos: nat, prev: uint16) returns (option: OptionView)
      requires Readable(pdu[..], optionPos)
      ensures option == ViewAt(pdu[..], optionPos, prev)
    {
      var optionDelta := GetOptionDelta(optionPos);
      var optionNumber := Wrap16(prev + optionDelta);
      var optionValueLength := GetOptionValueLength(optionPos);
      var totalLength := 1;
      totalLength := totalLength + Ext(optionDelta);
      totalLength := totalLength + Ext(optionValueLength);
      totalLength := totalLength + optionValueLength;
      option := OptionView(optionDelta, optionNumber, optionValueLength, totalLength,
                           optionPos, optionPos + totalLength - optionValueLength);
    }

    /** `getOptions`: the walk over the counted options. */
    method GetOptions() returns (options: seq<OptionView>)
      requires pdu.Length > 0 && 0 <= numOptions && Walkable(pdu[..], HDR_SIZE + GetTokenLength(), numOptions)
      ensures options == Walk(pdu[..], HDR_SIZE + GetTokenLength(), numOptions, 0)
    {
      hide ViewAt, DeltaAt, LengthAt, TotalAt, Readable;
      options := [];
      if numOptions == 0 {
        return;
      }
      var optionNumber: uint16 := 0;
      var optionPos: nat := HDR_SIZE + GetTokenLength();
      ghost var s := pdu[..];
      ghost var all := Walk(s, optionPos, numOptions, 0);
      for i := 0 to numOptions
        invariant Walkable(s, optionPos, numOptions - i)
        invariant all == options + Walk(s, optionPos, numOptions - i, optionNumber)
      {
        var option := ReadOption(optionPos, optionNumber);
        WalkStep(s, optionPos, numOptions - i, optionNumber, option, optionPos + option.totalLength);
        options := options + [option];
        optionNumber := option.number;
        optionPos := optionPos + option.totalLength;
      }
    }
  }

  lemma SizeOfInsertion(recs: seq<Record>, i: nat, r1: Record, r2: Record)
    requires i < |recs|
    ensures |Encode(recs[..i] + [r1, r2] + recs[i + 1..])|
         == |Encode(recs)| - |EncodeRecord(recs[i])| + |EncodeRecord(r1)| + |EncodeRecord(r2)|
  {
    hide EncodeRecord;
    EncodeSplit(recs, i);
    EncodeInserted(recs, i, r1, r2);
  }

  lemma SizeBefore(recs: seq<Record>, i: nat, prev: nat, n: uint16, value: OptionValue)
    requires i < |recs| && prev <= n < prev + recs[i].delta < 0x1_0000
    ensures |Encode(recs[..i] + [Record(n - prev, value), Record(prev + recs[i].delta - n, recs[i].value)]
                    + recs[i + 1..])|
         == |Encode(recs)| + InsertedSize(prev, n, prev + recs[i].delta, |value|)
  {
    var r := recs[i];
    SizeOfInsertion(recs, i, Record(n - prev, value), Record(prev + r.delta - n, r.value));
    RecordSize(n - prev, value);
    RecordSize(r.delta, r.value);
    RecordSize(prev + r.delta - n, r.value);
    hide Encode, EncodeRecord;
  }

  /** `addOption` adds up the size of the new option in 16 bits, which holds whatever the delta exactly up to this
      length. */
  lemma OptionSizeExactIff(length: uint16)
    ensures (forall delta: uint16 ::
               Wrap16(1 + Ext(delta) + Ext(length) + length) == |Header(delta, length)| + length)
       <==> length <= 65530
  {
    if length > 65530 {
      var size := |Header(269, length)| + length;
      assert size == 1 + Ext(269) + Ext(length) + length;
      assert Wrap16(size) != size;
    }
  }

  /** How much longer the insertion makes the message: the new option, less what the next one saves. */
  function InsertedSize(prev: nat, n: uint16, next: nat, length: uint16): int
    requires prev <= n < next < 0x1_0000
  {
    1 + Ext(n - prev) + Ext(length) + length + Ext(next - n) - Ext(next - prev)
  }

  lemma StoredPrefix(t: seq<byte>, q: nat, v: seq<byte>, next: nat)
    requires At(t, q, v) && q + |v| <= next <= |t|
    ensures t[q..next][..|v|] == v && At(t, q, t[q..next])
  {
    assert t[q..next][..|v|] == t[q..q + |v|];
  }

  /** What the buffer holds after `insertOption` wrote header and copied bytes at a position. */
  lemma PlacedOption(s: seq<byte>, p: nat, delta: uint16, value: OptionValue) returns (stored: OptionValue)
    requires p + |Header(delta, |value|)| + |value| <= |s|
    ensures Stores(stored, value)
    ensures var t := Overwrite(s, p, Header(delta, |value|) + value[..Copied(|value|)]);
            var next := p + |EncodeRecord(Record(delta, stored))|;
            At(t, p, EncodeRecord(Record(delta, stored))) && t[..p] == s[..p] && t[next..] == s[next..]
  {
    RecordSize(delta, value);
    hide Header, Ext;
    var h, v := Header(delta, |value|), value[..Copied(|value|)];
    var t := Overwrite(s, p, h + v);
    var q := p + |h|;
    var next := q + |value|;
    stored := t[q..next];
    AtConcat(t, p, h, v);
    StoredPrefix(t, q, v, next);
    AtConcat(t, p, h, stored);
    SuffixMore(s, t, q + |v|, next);
  }

  lemma HeaderParts(delta: uint16, length: uint16)
    ensures |ExtBytes(delta)| == Ext(delta) && |ExtBytes(length)| == Ext(length)
    ensures Header(delta, length) == ([Nibble(delta) * 16 + Nibble(length)] + ExtBytes(delta)) + ExtBytes(length)
    ensures |Header(delta, length)| == 1 + Ext(delta) + Ext(length)
    ensures Nibble(delta) <= 14 && Nibble(length) <= 14 && Copied(length) <= length
  {}

  lemma DeltaWritten(s: seq<byte>, s1: seq<byte>, p: nat, delta: uint16)
    requires p + 1 + Ext(delta) <= |s| && s1 == Overwrite(s, p, [Nibble(delta) * 16] + ExtBytes(delta))
    ensures |s1| == |s| && s1[p] == Nibble(delta) * 16 && Lower(s1[p]) == 0
  {}

  /** Writing the delta part and then the length part writes the header. */
  lemma HeaderInTwoSteps(s: seq<byte>, s1: seq<byte>, s2: seq<byte>, p: nat, delta: uint16, length: uint16)
    requires p + 1 + Ext(delta) + Ext(length) <= |s|
    requires s1 == Overwrite(s, p, [Nibble(delta) * 16] + ExtBytes(delta))
    requires s1[p] == Nibble(delta) * 16 && Nibble(delta) <= 14 && Nibble(length) <= 14
    requires s2 == Overwrite(s1[p := s1[p] + Nibble(length)], p + Ext(delta) + 1, ExtBytes(length))
    ensures s2 == Overwrite(s, p, Header(delta, length))
  {
    HeaderParts(delta, length);
    hide Header, Ext, Nibble, Overwrite;
    var e := ExtBytes(delta);
    var y := Nibble(delta) * 16 + Nibble(length);
    OverwriteHead(s, p, Nibble(delta) * 16, e, y);
    OverwriteTwice(s, p, [y] + e, ExtBytes(length));
  }
}
