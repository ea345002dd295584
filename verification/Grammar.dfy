/** The option part of a message: the walks of `validate` and `getOptions` against the grammar of
    sections 3 and 3.1 of RFC 7252. A walk reads from position p of a buffer s whose first `len` bytes
    are the PDU; like the C code it may look at up to two bytes behind `len`. */
module Grammar {
  import opened Bytes
  import opened OptionCodec
  import opened OptionList

  // The grammar

  /** The size of the option at p by section 3.1: header, extended delta and length, value. */
  function RawSize(s: seq<byte>, p: nat): nat
    requires Readable(s, p)
  {
    1 + DeltaNeeds(s[p]) + LengthNeeds(s[p]) + RawLength(s, p)
  }

  /** Neither nibble is reserved and the extended values are inside. */
  predicate HeaderInside(s: seq<byte>, len: nat, p: nat)
    requires p < len <= |s|
  {
    Upper(s[p]) != 15 && Lower(s[p]) != 15 && p + 1 + DeltaNeeds(s[p]) + LengthNeeds(s[p]) <= len
  }

  /** Bytes p..len are options, with deltas and lengths of up to 0xFFFF + 269, and then nothing or the marker with a
      payload of at least one byte. */
  predicate WellFormed(s: seq<byte>, len: nat, p: nat)
    requires p <= len <= |s|
    decreases len - p
  {
    || p == len
    || (s[p] == PAYLOAD_MARKER && p + 1 < len)
    || (HeaderInside(s, len, p) && p + RawSize(s, p) <= len && WellFormed(s, len, p + RawSize(s, p)))
  }

  /** Bytes p..len are the encoding of records, with deltas and lengths of 16 bits, and a payload. */
  ghost predicate Encoded(s: seq<byte>, len: nat, p: nat)
    requires p <= len <= |s|
  {
    exists recs: seq<Record>, payload: seq<byte> :: s[p..len] == Encode(recs) + Tail(payload)
  }

  // validate

  datatype Verdict = Reject | Accept(numOptions: nat, payloadLength: nat)

  /** The header at p has no reserved nibble and enough bytes behind it, by the count of `validate`,
      which takes one extension byte for nibble 14. */
  predicate HeaderFits(s: seq<byte>, len: nat, p: nat)
    requires p < len <= |s|
  {
    && Upper(s[p]) != 15 && Lower(s[p]) != 15
    && p + 1 + Ext(Upper(s[p])) + Ext(Lower(s[p])) <= len
  }

  /** The option loop of `validate`, from its k-th option at p. */
  function Scan(s: seq<byte>, len: nat, p: nat, k: nat): Verdict
    requires p <= len && len + 2 <= |s|
    decreases len - p
  {
    if p == len then Accept(k, 0)
    else if s[p] == PAYLOAD_MARKER then if p + 1 < len then Accept(k, len - p - 1) else Reject
    else if !HeaderFits(s, len, p) then Reject
    else
      var next := p + TotalAt(s, p);
      if next > len then Reject else Scan(s, len, next, k + 1)
  }

  /** One turn of the loop. */
  lemma ScanTurn(s: seq<byte>, len: nat, p: nat, k: nat)
    requires p <= len && len + 2 <= |s|
    ensures p == len ==> Scan(s, len, p, k) == Accept(k, 0)
    ensures p < len && s[p] == PAYLOAD_MARKER ==>
              Scan(s, len, p, k) == if p + 1 < len then Accept(k, len - p - 1) else Reject
    ensures p < len && s[p] != PAYLOAD_MARKER && !HeaderFits(s, len, p) ==> Scan(s, len, p, k) == Reject
    ensures p < len && HeaderFits(s, len, p) ==>
              && Readable(s, p)
              && Scan(s, len, p, k)
                 == if p + TotalAt(s, p) > len then Reject else Scan(s, len, p + TotalAt(s, p), k + 1)
  {}

  /** No extended value that the loop reads is narrowed to 16 bits. */
  predicate NoWrap(s: seq<byte>, len: nat, p: nat)
    requires p <= len && len + 2 <= |s|
    decreases len - p
  {
    p == len || s[p] == PAYLOAD_MARKER || !HeaderFits(s, len, p)
    || (Unwrapped(s, p) && (p + TotalAt(s, p) <= len ==> NoWrap(s, len, p + TotalAt(s, p))))
  }

  /** One turn of the loop over an encoded record. */
  lemma ScanRecord(s: seq<byte>, len: nat, p: nat, k: nat, r: Record, rest: seq<byte>, next: nat)
    requires p <= len && len + 2 <= |s|
    requires s[p..len] == EncodeRecord(r) + rest && next == p + |EncodeRecord(r)|
    ensures next <= len && s[next..len] == rest
    ensures Scan(s, len, p, k) == Scan(s, len, next, k + 1) && NoWrap(s, len, p) == NoWrap(s, len, next)
  {
    hide EncodeRecord, RawDelta, RawLength;
    AtConcat(s, p, EncodeRecord(r), rest);
    ReadEncoded(s, p, r);
  }

  lemma ScanTail(s: seq<byte>, len: nat, p: nat, k: nat, payload: seq<byte>)
    requires p <= len && len + 2 <= |s| && s[p..len] == Tail(payload)
    ensures Scan(s, len, p, k) == Accept(k, |payload|) && NoWrap(s, len, p)
  {
    if payload != [] {
      assert s[p] == s[p..len][0];
    }
  }

  /** A well-formed option part is accepted, with its options counted and its payload found. */
  lemma {:induction false} ScanEncoded(s: seq<byte>, len: nat, p: nat, k: nat, recs: seq<Record>, payload: seq<byte>)
    requires p <= len && len + 2 <= |s|
    requires s[p..len] == Encode(recs) + Tail(payload)
    ensures Scan(s, len, p, k) == Accept(k + |recs|, |payload|) && NoWrap(s, len, p)
    decreases recs
  {
    if recs == [] {
      ScanTail(s, len, p, k, payload);
    } else {
      var r, more := recs[0], recs[1..];
      var rest := Encode(more) + Tail(payload);
      var next := p + |EncodeRecord(r)|;
      PartSplit(s[p..len], recs, payload);
      ScanRecord(s, len, p, k, r, rest, next);
      ScanEncoded(s, len, next, k + 1, more, payload);
    }
  }

  lemma PartSplit(part: seq<byte>, recs: seq<Record>, payload: seq<byte>)
    requires recs != [] && part == Encode(recs) + Tail(payload)
    ensures part == EncodeRecord(recs[0]) + (Encode(recs[1..]) + Tail(payload))
  {}

  /** What is accepted without wrapping is well-formed. */
  lemma {:induction false} ScanSound(s: seq<byte>, len: nat, p: nat, k: nat)
      returns (recs: seq<Record>, payload: seq<byte>)
    requires p <= len && len + 2 <= |s|
    requires Scan(s, len, p, k).Accept? && NoWrap(s, len, p)
    ensures s[p..len] == Encode(recs) + Tail(payload)
    decreases len - p
  {
    hide Scan, NoWrap, Encode, Tail, HeaderFits, RecordAt, TotalAt;
    ScanTurn(s, len, p, k);
    if p == len {
      recs, payload := [], [];
      NoRecords(s, len, p, []);
    } else if s[p] == PAYLOAD_MARKER {
      recs, payload := [], s[p + 1..len];
      NoRecords(s, len, p, payload);
    } else {
      NoWrapTurn(s, len, p);
      var next := p + TotalAt(s, p);
      var more, rest := ScanSound(s, len, next, k + 1);
      recs, payload := [RecordAt(s, p)] + more, rest;
      RecordThenRest(s, len, p, next);
      OneMoreRecord(RecordAt(s, p), more, rest);
    }
  }

  lemma NoWrapTurn(s: seq<byte>, len: nat, p: nat)
    requires p < len && len + 2 <= |s| && s[p] != PAYLOAD_MARKER && HeaderFits(s, len, p) && NoWrap(s, len, p)
    ensures Readable(s, p) && Unwrapped(s, p) && 0 < TotalAt(s, p)
    ensures p + TotalAt(s, p) <= len ==> NoWrap(s, len, p + TotalAt(s, p))
  {}

  lemma NoRecords(s: seq<byte>, len: nat, p: nat, payload: seq<byte>)
    requires p <= len <= |s|
    requires if payload == [] then p == len else p < len && s[p] == PAYLOAD_MARKER && payload == s[p + 1..len]
    ensures s[p..len] == Encode([]) + Tail(payload)
  {}

  lemma OneMoreRecord(r: Record, more: seq<Record>, payload: seq<byte>)
    ensures Encode([r] + more) + Tail(payload) == EncodeRecord(r) + (Encode(more) + Tail(payload))
  {
    hide EncodeRecord, Tail;
    assert ([r] + more)[1..] == more;
  }

  lemma RecordThenRest(s: seq<byte>, len: nat, p: nat, next: nat)
    requires p < len && len + 2 <= |s| && HeaderFits(s, len, p) && Unwrapped(s, p)
    requires next == p + TotalAt(s, p) <= len
    ensures s[p..len] == EncodeRecord(RecordAt(s, p)) + s[next..len]
  {
    EncodeRead(s, p);
    assert s[p..len] == s[p..next] + s[next..len];
  }

  /** `validate` against the grammar of section 3.1, whenever nothing it reads is narrowed. */
  lemma {:induction false} ScanDecidesGrammar(s: seq<byte>, len: nat, p: nat, k: nat)
    requires p <= len && len + 2 <= |s| && NoWrap(s, len, p)
    ensures WellFormed(s, len, p) <==> Scan(s, len, p, k).Accept?
    decreases len - p
  {
    if p < len && s[p] != PAYLOAD_MARKER && HeaderFits(s, len, p) {
      TotalIsGrammarSizeIffUnwrapped(s, p);
      if p + TotalAt(s, p) <= len {
        ScanDecidesGrammar(s, len, p + TotalAt(s, p), k + 1);
      }
    }
  }

  /** What the encoder of the message object can produce, on every input: accepted with nothing narrowed. */
  lemma ScanDecidesEncoded(s: seq<byte>, len: nat, p: nat, k: nat)
    requires p <= len && len + 2 <= |s|
    ensures Encoded(s, len, p) <==> Scan(s, len, p, k).Accept? && NoWrap(s, len, p)
    ensures Encoded(s, len, p) <==> WellFormed(s, len, p) && NoWrap(s, len, p)
  {
    hide Scan, NoWrap, WellFormed, Encode;
    if Encoded(s, len, p) {
      var recs: seq<Record>, payload: seq<byte> :| s[p..len] == Encode(recs) + Tail(payload);
      ScanEncoded(s, len, p, k, recs, payload);
    }
    if NoWrap(s, len, p) {
      ScanDecidesGrammar(s, len, p, k);
      if Scan(s, len, p, k).Accept? {
        var recs, payload := ScanSound(s, len, p, k);
      }
    }
  }

  /** The grammar looks only at the bytes of the PDU. */
  lemma {:induction false} WellFormedInside(s: seq<byte>, t: seq<byte>, len: nat, p: nat)
    requires p <= len <= |s| && len <= |t| && s[..len] == t[..len]
    ensures WellFormed(s, len, p) <==> WellFormed(t, len, p)
    decreases len - p
  {
    assert forall i :: 0 <= i < len ==> s[i] == s[..len][i] == t[..len][i] == t[i];
    if p < len && s[p] != PAYLOAD_MARKER && HeaderInside(s, len, p) {
      assert RawSize(s, p) == RawSize(t, p);
      if p + RawSize(s, p) <= len {
        WellFormedInside(s, t, len, p + RawSize(s, p));
      }
    }
  }

  /** The bytes behind the PDU do not matter as long as nothing is narrowed. */
  lemma ScanIgnoresRest(s: seq<byte>, t: seq<byte>, len: nat, p: nat, k: nat)
    requires p <= len && len + 2 <= |s| && len + 2 <= |t| && s[..len] == t[..len]
    requires NoWrap(s, len, p) && NoWrap(t, len, p)
    ensures Scan(s, len, p, k) == Scan(t, len, p, k)
  {
    hide Scan, NoWrap, Encode;
    assert s[p..len] == s[..len][p..] == t[..len][p..] == t[p..len];
    ScanDecidesEncoded(s, len, p, k);
    ScanDecidesEncoded(t, len, p, k);
    if Encoded(s, len, p) {
      var recs: seq<Record>, payload: seq<byte> :| s[p..len] == Encode(recs) + Tail(payload);
      ScanEncoded(s, len, p, k, recs, payload);
      ScanEncoded(t, len, p, k, recs, payload);
    } else {
      assert Scan(s, len, p, k) == Scan(t, len, p, k) == Reject;
    }
  }

  // getOptions

  /** An entry of `getOptions`: numbers, lengths and the two pointers as positions. */
  datatype OptionView = OptionView(delta: uint16, number: uint16, valueLength: uint16, totalLength: nat,
                                   optionAt: nat, valueAt: nat)

  /** k options can be stepped over from p. */
  predicate Walkable(s: seq<byte>, p: nat, k: nat)
    decreases k
  {
    k == 0 || (Readable(s, p) && p + TotalAt(s, p) <= |s| && Walkable(s, p + TotalAt(s, p), k - 1))
  }

  /** The entry for the option at p. */
  function ViewAt(s: seq<byte>, p: nat, prev: uint16): OptionView
    requires Readable(s, p)
  {
    var total := TotalAt(s, p);
    OptionView(DeltaAt(s, p), Wrap16(prev + DeltaAt(s, p)), LengthAt(s, p), total, p, p + total - LengthAt(s, p))
  }

  /** The loop of `getOptions`: k options from p, behind option number prev. */
  function Walk(s: seq<byte>, p: nat, k: nat, prev: uint16): (views: seq<OptionView>)
    requires Walkable(s, p, k)
    ensures |views| == k
    decreases k
  {
    if k == 0 then [] else
      var v := ViewAt(s, p, prev);
      [v] + Walk(s, p + v.totalLength, k - 1, v.number)
  }

  lemma WalkStep(s: seq<byte>, p: nat, k: nat, prev: uint16, v: OptionView, q: nat)
    requires Walkable(s, p, k) && k > 0 && v == ViewAt(s, p, prev) && q == p + v.totalLength
    ensures Walkable(s, q, k - 1) && Walk(s, p, k, prev) == [v] + Walk(s, q, k - 1, v.number)
  {
    hide TotalAt, DeltaAt, LengthAt, Wrap16;
  }

  /** Where the walk ends. */
  function WalkEnd(s: seq<byte>, p: nat, k: nat): nat
    requires Walkable(s, p, k)
    decreases k
  {
    if k == 0 then p else WalkEnd(s, p + TotalAt(s, p), k - 1)
  }

  function Sizes(views: seq<OptionView>): nat {
    if views == [] then 0 else views[0].totalLength + Sizes(views[1..])
  }

  /** Each option starts where the one before it ends, the first at p, with its value at its end. */
  predicate Contiguous(views: seq<OptionView>, p: nat) {
    && (views != [] ==> views[0].optionAt == p)
    && (forall i :: 0 < i < |views| ==> views[i].optionAt == views[i - 1].optionAt + views[i - 1].totalLength)
    && (forall i :: 0 <= i < |views| ==>
          views[i].valueAt + views[i].valueLength == views[i].optionAt + views[i].totalLength)
  }

  lemma {:induction false} WalkContiguous(s: seq<byte>, p: nat, k: nat, prev: uint16)
    requires Walkable(s, p, k)
    ensures Contiguous(Walk(s, p, k, prev), p)
    ensures p + Sizes(Walk(s, p, k, prev)) == WalkEnd(s, p, k)
    decreases k
  {
    hide DeltaAt, LengthAt, TotalAt, Readable, Wrap16, Contiguous, Walk;
    if k == 0 {
      WalkNone(s, p, prev);
    } else {
      var v := ViewAt(s, p, prev);
      var q := p + v.totalLength;
      WalkStep(s, p, k, prev, v, q);
      WalkContiguous(s, q, k - 1, v.number);
      ContiguousCons(v, Walk(s, q, k - 1, v.number), p, q);
    }
  }

  lemma WalkNone(s: seq<byte>, p: nat, prev: uint16)
    requires Walkable(s, p, 0)
    ensures Walk(s, p, 0, prev) == [] && Contiguous([], p)
  {}

  lemma ContiguousCons(v: OptionView, rest: seq<OptionView>, p: nat, q: nat)
    requires Contiguous(rest, q) && v.optionAt == p && q == p + v.totalLength && v.valueAt + v.valueLength == q
    ensures Contiguous([v] + rest, p) && Sizes([v] + rest) == v.totalLength + Sizes(rest)
  {
    var all := [v] + rest;
    assert all[1..] == rest;
    forall i | 0 < i < |all|
      ensures all[i].optionAt == all[i - 1].optionAt + all[i - 1].totalLength
    {
      assert all[i] == rest[i - 1];
      if i > 1 {
        assert all[i - 1] == rest[i - 2];
      }
    }
  }

  /** Both loops take the same steps: behind the options counted by `validate` come the payload or the end. */
  lemma {:induction false} ScanWalks(s: seq<byte>, len: nat, p: nat, k: nat)
    requires p <= len && len + 2 <= |s| && Scan(s, len, p, k).Accept?
    ensures var v := Scan(s, len, p, k);
            && k <= v.numOptions && Walkable(s, p, v.numOptions - k)
            && WalkEnd(s, p, v.numOptions - k) + (if v.payloadLength > 0 then 1 + v.payloadLength else 0) == len
    decreases len - p
  {
    if p < len && s[p] != PAYLOAD_MARKER {
      ScanWalks(s, len, p + TotalAt(s, p), k + 1);
    }
  }

  /** Conservation after any accepted PDU, wrapped values included: the options of `getOptions` lie end to end
      from p, and their sizes, the marker and the payload add up to the PDU. */
  lemma AcceptedIsConserved(s: seq<byte>, len: nat, p: nat)
    requires p <= len && len + 2 <= |s| && Scan(s, len, p, 0).Accept?
    ensures var v := Scan(s, len, p, 0);
            && Walkable(s, p, v.numOptions)
            && var views := Walk(s, p, v.numOptions, 0);
            && |views| == v.numOptions && Contiguous(views, p)
            && p + Sizes(views) + (if v.payloadLength > 0 then 1 + v.payloadLength else 0) == len
  {
    ScanWalks(s, len, p, 0);
    WalkContiguous(s, p, Scan(s, len, p, 0).numOptions, 0);
  }

  /** The option a view denotes. */
  function OptionOf(s: seq<byte>, v: OptionView): CoapOption
    requires v.valueAt + v.valueLength <= |s|
  {
    Opt(v.number, s[v.valueAt..v.valueAt + v.valueLength])
  }

  /** views shows exactly the options opts of s. */
  predicate Shows(s: seq<byte>, views: seq<OptionView>, opts: seq<CoapOption>) {
    && |views| == |opts|
    && forall i :: 0 <= i < |views| ==>
         views[i].valueAt + views[i].valueLength <= |s| && OptionOf(s, views[i]) == opts[i]
  }

  /** The options that views shows of s. */
  function Shown(s: seq<byte>, views: seq<OptionView>): (opts: seq<CoapOption>)
    requires forall i :: 0 <= i < |views| ==> views[i].valueAt + views[i].valueLength <= |s|
    ensures Shows(s, views, opts) && forall other :: Shows(s, views, other) ==> other == opts
  {
    var opts := seq(|views|, i requires 0 <= i < |views| => OptionOf(s, views[i]));
    assert forall other :: Shows(s, views, other) ==> other == opts;
    opts
  }

  /** The values of a walk are inside the buffer. */
  lemma {:induction false} WalkInside(s: seq<byte>, p: nat, k: nat, prev: uint16)
    requires Walkable(s, p, k)
    ensures forall i :: 0 <= i < k ==> var v := Walk(s, p, k, prev)[i]; v.valueAt + v.valueLength <= |s|
    decreases k
  {
    if k > 0 {
      var v := ViewAt(s, p, prev);
      var q := p + v.totalLength;
      WalkStep(s, p, k, prev, v, q);
      WalkInside(s, q, k - 1, v.number);
    }
  }

  /** The walk from p recovers the records' options, numbers and values, and ends behind them. */
  predicate Decodes(s: seq<byte>, p: nat, recs: seq<Record>, prev: uint16) {
    && Walkable(s, p, |recs|) && WalkEnd(s, p, |recs|) == p + |Encode(recs)|
    && Shows(s, Walk(s, p, |recs|, prev), Options(prev, recs))
  }

  /** `getOptions` decodes encoded records. */
  lemma {:induction false} WalkDecodes(s: seq<byte>, p: nat, recs: seq<Record>, prev: uint16)
    requires At(s, p, Encode(recs))
    ensures Decodes(s, p, recs, prev)
    decreases recs
  {
    if recs != [] {
      var r, rest := recs[0], recs[1..];
      var q, n := p + |EncodeRecord(r)|, Wrap16(prev + r.delta);
      AtConcat(s, p, EncodeRecord(r), Encode(rest));
      WalkDecodes(s, q, rest, n);
      DecodesRecord(s, p, r, rest, prev, q, n);
      assert recs == [r] + rest;
    }
  }

  lemma DecodesRecord(s: seq<byte>, p: nat, r: Record, rest: seq<Record>, prev: uint16, q: nat, n: uint16)
    requires At(s, p, EncodeRecord(r)) && Decodes(s, q, rest, n)
    requires q == p + |EncodeRecord(r)| && n == Wrap16(prev + r.delta)
    ensures Decodes(s, p, [r] + rest, prev)
  {
    var recs := [r] + rest;
    assert recs[1..] == rest;
    var o, opts := Opt(n, r.value), Options(n, rest);
    assert Options(prev, recs) == [o] + opts;
    assert Encode(recs) == EncodeRecord(r) + Encode(rest);
    var view := WalkHead(s, p, r, |rest|, prev, q, n);
    ShowsCons(s, view, Walk(s, q, |rest|, n), o, opts);
  }

  /** The first step of a walk over an encoded record. */
  lemma WalkHead(s: seq<byte>, p: nat, r: Record, k: nat, prev: uint16, q: nat, n: uint16) returns (view: OptionView)
    requires At(s, p, EncodeRecord(r)) && Walkable(s, q, k)
    requires q == p + |EncodeRecord(r)| && n == Wrap16(prev + r.delta)
    ensures Walkable(s, p, k + 1) && WalkEnd(s, p, k + 1) == WalkEnd(s, q, k)
    ensures Walk(s, p, k + 1, prev) == [view] + Walk(s, q, k, n)
    ensures view.valueAt + view.valueLength <= |s| && OptionOf(s, view) == Opt(n, r.value)
  {
    hide TotalAt, DeltaAt, LengthAt, RawDelta, RawLength, EncodeRecord, Ext, Upper, Lower;
    ReadEncoded(s, p, r);
    view := Walk(s, p, k + 1, prev)[0];
  }

  lemma ShowsCons(s: seq<byte>, v: OptionView, views: seq<OptionView>, o: CoapOption, opts: seq<CoapOption>)
    requires v.valueAt + v.valueLength <= |s| && OptionOf(s, v) == o && Shows(s, views, opts)
    ensures Shows(s, [v] + views, [o] + opts)
  {}

  /** An option part has one reading. */
  lemma ReadingUnique(a: seq<Record>, x: seq<byte>, b: seq<Record>, y: seq<byte>)
    requires Encode(a) + Tail(x) == Encode(b) + Tail(y)
    ensures a == b && x == y
  {
    var part := Encode(a) + Tail(x);
    ScanEncodedPart(a, x);
    ScanEncodedPart(b, y);
    WalkDecodesPart(a, x);
    WalkDecodesPart(b, y);
    assert Options(0, a) == Options(0, b);
    OptionsInjective(0, a, b);
    assert Tail(x) == part[|Encode(a)|..] == Tail(y);
    if x != [] {
      assert x == Tail(x)[1..] == Tail(y)[1..] == y;
    }
  }

  lemma ScanEncodedPart(recs: seq<Record>, payload: seq<byte>)
    ensures var part := Encode(recs) + Tail(payload);
            Scan(part + [0, 0], |part|, 0, 0) == Accept(|recs|, |payload|)
  {
    var part := Encode(recs) + Tail(payload);
    assert (part + [0, 0])[0..|part|] == part;
    ScanEncoded(part + [0, 0], |part|, 0, 0, recs, payload);
  }

  lemma WalkDecodesPart(recs: seq<Record>, payload: seq<byte>)
    ensures var s := Encode(recs) + Tail(payload);
            Walkable(s, 0, |recs|) && Shows(s, Walk(s, 0, |recs|, 0), Options(0, recs))
  {
    var s := Encode(recs) + Tail(payload);
    AtConcat(s, 0, Encode(recs), Tail(payload));
    WalkDecodes(s, 0, recs, 0);
  }
}
