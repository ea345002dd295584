/** `setURI` and `getURI`: a URI split into options, and options printed as a URI. */
module Uri {
  import opened Bytes
  import opened OptionCodec
  import opened OptionList
  import opened Grammar
  import opened CoapPdu

  const SLASH: byte := 47
  const QUESTION: byte := 63
  const AMPERSAND: byte := 38

  const URI_PATH: uint16 := 11
  const URI_QUERY: uint16 := 15

  predicate IsUriNumber(n: uint16) { n == URI_PATH || n == URI_QUERY }

  // Splitting

  /** `strchr` from position i, or the end of the string. */
  function Find(u: seq<byte>, i: nat, c: byte): (j: nat)
    requires i <= |u|
    ensures i <= j <= |u| && c !in u[i..j] && (j < |u| ==> u[j] == c)
    decreases |u| - i
  {
    if i == |u| || u[i] == c then i else Find(u, i + 1, c)
  }

  /** The variables of the loop of `setURI`. */
  datatype Splitter = Splitter(startP: nat, splitChar: byte, optionType: uint16)

  predicate InTurn(u: seq<byte>, st: Splitter) { st.startP + 1 < |u| < 0x1_0000 }

  /** The part a turn takes: behind a leading separator, up to the next separator, else up to a '?', else to the end. */
  function PartStart(u: seq<byte>, st: Splitter): (j: nat)
    requires InTurn(u, st)
    ensures j < |u|
  {
    if u[st.startP] == st.splitChar then st.startP + 1 else st.startP
  }

  predicate AtQuery(u: seq<byte>, st: Splitter)
    requires InTurn(u, st)
  {
    Find(u, PartStart(u, st), st.splitChar) == |u| && Find(u, PartStart(u, st), QUESTION) < |u|
  }

  function PartEnd(u: seq<byte>, st: Splitter): (j: nat)
    requires InTurn(u, st)
    ensures PartStart(u, st) <= j <= |u|
  {
    if AtQuery(u, st) then Find(u, PartStart(u, st), QUESTION) else Find(u, PartStart(u, st), st.splitChar)
  }

  function Next(u: seq<byte>, st: Splitter): (next: Splitter)
    requires InTurn(u, st)
    ensures st.startP < next.startP <= |u|
  {
    if AtQuery(u, st) then Splitter(PartEnd(u, st) + 1, AMPERSAND, URI_QUERY) else st.(startP := PartEnd(u, st))
  }

  function Part(u: seq<byte>, st: Splitter): CoapOption
    requires InTurn(u, st)
  {
    Opt(st.optionType, u[PartStart(u, st)..PartEnd(u, st)])
  }

  /** The calls of `addOption` that the loop makes from here on. */
  function Calls(u: seq<byte>, st: Splitter): seq<CoapOption>
    requires |u| < 0x1_0000
    decreases |u| - st.startP
  {
    if !InTurn(u, st) then [] else [Part(u, st)] + Calls(u, Next(u, st))
  }

  const START := Splitter(0, SLASH, URI_PATH)

  /** All calls of `setURI`. */
  function UriCalls(u: seq<byte>): seq<CoapOption>
    requires |u| < 0x1_0000
  {
    if u == [] then [] else if |u| == 1 then [Opt(URI_PATH, u)] else Calls(u, START)
  }

  /** The options given to the calls and the options stored: same numbers, values as `insertOption` leaves them. */
  ghost predicate StoredAs(stored: seq<CoapOption>, calls: seq<CoapOption>) {
    && |stored| <= |calls|
    && forall k :: 0 <= k < |stored| ==> stored[k].number == calls[k].number && Stores(stored[k].value, calls[k].value)
  }

  lemma StoredAsSnoc(stored: seq<CoapOption>, calls: seq<CoapOption>, o: CoapOption)
    requires StoredAs(stored, calls) && |stored| < |calls|
    requires o.number == calls[|stored|].number && Stores(o.value, calls[|stored|].value)
    ensures StoredAs(stored + [o], calls)
  {}

  /** A built PDU without payload, to which options can be added. */
  ghost predicate Built(c: CoapPDU)
    reads c, c.pdu
  {
    c.Valid() && c.payload == [] && Numbered(c.recs) && c.maxAddedOptionNumber == Last(0, c.recs)
  }

  lemma FailureMoves(recs: seq<Record>, n: uint16)
    requires Numbered(recs)
    ensures NextMax(recs, Last(0, recs), n) == Last(0, recs) <==> n <= Last(0, recs)
  {}

  /** `addOption` on a built PDU, as one more call of a run. A failed call leaves the PDU built exactly when its number
      is not above the last one. */
  method AddToRun(c: CoapPDU, n: uint16, value: OptionValue, ghost recs: seq<Record>, ghost stored: seq<CoapOption>)
      returns (r: int, ghost more: seq<CoapOption>)
    requires Built(c) && |value| <= 65530 && Numbered(recs)
    requires (c.recs, c.maxAddedOptionNumber) == AddAll(recs, Last(0, recs), stored)
    modifies c, c.pdu
    ensures c.pdu == old(c.pdu) || fresh(c.pdu)
    ensures c.constructedFromBuffer == old(c.constructedFromBuffer)
    ensures c.constructedFromBuffer ==>
              && c.bufferLength == old(c.bufferLength)
              && (r == 0 <==>
                    |old(Head(c.Bytes()))| + |Encode(AddRecord(old(c.recs), old(c.maxAddedOptionNumber), n, value))|
                    <= c.bufferLength)
    ensures r == 0 || r == 1
    ensures r == 0 ==>
              && Built(c) && (c.recs, c.maxAddedOptionNumber) == AddAll(recs, Last(0, recs), more)
              && |more| == |stored| + 1 && more[..|stored|] == stored
              && more[|stored|].number == n && Stores(more[|stored|].value, value)
              && Head(c.Bytes()) == old(Head(c.Bytes()))
    ensures r != 0 ==>
              && more == stored && c.Valid() && c.payload == [] && c.recs == old(c.recs)
              && c.Bytes() == old(c.Bytes()) && (Built(c) <==> n <= Last(0, old(c.recs)))
  {
    ghost var v;
    AddRecordKeepsMax(c.recs, n, value);
    FailureMoves(c.recs, n);
    hide AddRecord, NextMax, Last, AddAll, Stores, Encode, Head;
    ghost var before := c.recs;
    r, v := c.AddOption(n, value);
    if r == 0 {
      AddAllSnoc(recs, Last(0, recs), stored, Opt(n, v));
      AddRecordKeepsMax(before, n, v);
      more := stored + [Opt(n, v)];
    } else {
      more := stored;
    }
  }

  /** One turn of the loop of `setURI`, up to the call. */
  method TakePart(uri: seq<byte>, startP: nat, splitChar: byte, optionType: uint16)
      returns (value: OptionValue, nextP: nat, nextSplitChar: byte, nextType: uint16)
    requires InTurn(uri, Splitter(startP, splitChar, optionType))
    ensures var st := Splitter(startP, splitChar, optionType);
            Part(uri, st) == Opt(optionType, value) && Next(uri, st) == Splitter(nextP, nextSplitChar, nextType)
    ensures |value| <= |uri|
  {
    nextSplitChar, nextType := splitChar, optionType;
    var queryStageTriggered := false;
    var from := startP;
    if uri[from] == splitChar {
      from := from + 1;
    }
    var endP := Find(uri, from, splitChar);
    if endP == |uri| {
      endP := Find(uri, from, QUESTION);
      if endP != |uri| {
        queryStageTriggered := true;
      }
    }
    var oLen := endP - from;
    value, nextP := uri[from..from + oLen], endP;
    if queryStageTriggered {
      nextSplitChar, nextType := AMPERSAND, URI_QUERY;
      nextP := nextP + 1;
    }
  }

  lemma BuiltIsValid(c: CoapPDU)
    requires Built(c)
    ensures c.Valid() && c.payload == [] && Numbered(c.recs) && c.maxAddedOptionNumber == Last(0, c.recs)
    ensures c.Sized() && OptionsStart(c.Bytes()) <= |c.Bytes()|
  {}

  lemma BeforeParts(c: CoapPDU, uri: seq<byte>)
    requires Built(c) && 1 < |uri| < 0x1_0000
    ensures UriCalls(uri) == Calls(uri, START) == UriCalls(uri)[0..]
    ensures Behind(c, c.recs, Head(c.Bytes()), UriCalls(uri), [])
  {}

  /** The calls stored so far fit. */
  lemma StoredFits(c: CoapPDU, recs: seq<Record>, stored: seq<CoapOption>, calls: seq<CoapOption>, head: seq<byte>)
    requires c.Valid() && c.payload == [] && Head(c.Bytes()) == head && Numbered(recs)
    requires StoredAs(stored, calls) && c.recs == AddAll(recs, Last(0, recs), stored).0
    ensures |head| + |Encode(AddAll(recs, Last(0, recs), calls[..|stored|]).0)| <= c.bufferLength
  {
    hide Encode, AddAll, Stores, Wire;
    LengthOfParts(c.Bytes(), c.recs, []);
    StoredShape(stored, calls);
    AddAllShape(recs, recs, Last(0, recs), stored, calls[..|stored|]);
  }

  lemma StoredShape(stored: seq<CoapOption>, calls: seq<CoapOption>)
    requires StoredAs(stored, calls)
    ensures SameCallShape(stored, calls[..|stored|])
  {}

  /** The size that decides the next call. */
  lemma NextSize(recs: seq<Record>, stored: seq<CoapOption>, calls: seq<CoapOption>)
    requires StoredAs(stored, calls) && |stored| < |calls| && Numbered(recs)
    ensures var (res, max), o := AddAll(recs, Last(0, recs), stored), calls[|stored|];
            |Encode(AddRecord(res, max, o.number, o.value))|
            == |Encode(AddAll(recs, Last(0, recs), calls[..|stored| + 1]).0)|
  {
    hide Encode, AddAll, AddRecord, Stores, Last;
    var o := calls[|stored|];
    StoredShape(stored, calls);
    AddAllSnoc(recs, Last(0, recs), stored, o);
    assert calls[..|stored| + 1] == calls[..|stored|] + [o];
    AddAllShape(recs, recs, Last(0, recs), stored + [o], calls[..|stored| + 1]);
  }

  /** The first calls are stored: all of them, or those in front of one that did not fit. */
  lemma LongestStored(c: CoapPDU, recs: seq<Record>, stored: seq<CoapOption>, calls: seq<CoapOption>, head: seq<byte>)
    requires c.Valid() && c.payload == [] && Head(c.Bytes()) == head && Numbered(recs)
    requires StoredAs(stored, calls) && c.recs == AddAll(recs, Last(0, recs), stored).0
    requires c.constructedFromBuffer && |stored| < |calls| ==>
               |head| + |Encode(AddAll(recs, Last(0, recs), calls[..|stored| + 1]).0)| > c.bufferLength
    ensures c.constructedFromBuffer ==> LongestFitting(recs, calls, |stored|, c.bufferLength - |head|)
  {
    hide Encode, AddAll, Last, Head, Wire;
    StoredFits(c, recs, stored, calls, head);
    if c.constructedFromBuffer {
      FittingIsLongest(recs, calls, |stored|, c.bufferLength - |head|);
    }
  }

  lemma AllStored(c: CoapPDU, recs: seq<Record>, head: seq<byte>, calls: seq<CoapOption>, stored: seq<CoapOption>)
    requires Behind(c, recs, head, calls, stored) && (|stored| < |calls| ==> calls[|stored|..] == [])
    ensures Left(c, recs, head, calls, stored) && |stored| == |calls| && Built(c)
  {
    hide AddAll, Last, Encode, Stores, Head, LongestFitting, Tail;
    LongestStored(c, recs, stored, calls, head);
  }

  lemma NoCallsYet(recs: seq<Record>, max: uint16)
    ensures AddAll(recs, max, []) == (recs, max)
  {}

  /** Behind some calls of the run: all of them stored, and nothing else changed. */
  ghost predicate Behind(c: CoapPDU, recs: seq<Record>, head: seq<byte>, calls: seq<CoapOption>,
                         stored: seq<CoapOption>)
    reads c, c.pdu
  {
    && Built(c) && Head(c.Bytes()) == head && Numbered(recs) && StoredAs(stored, calls)
    && (c.recs, c.maxAddedOptionNumber) == AddAll(recs, Last(0, recs), stored)
  }

  /** What the run leaves, whether it is whole or not. */
  ghost predicate Left(c: CoapPDU, recs: seq<Record>, head: seq<byte>, calls: seq<CoapOption>,
                       stored: seq<CoapOption>)
    reads c, c.pdu
  {
    && c.Valid() && c.payload == [] && Head(c.Bytes()) == head && Numbered(recs) && StoredAs(stored, calls)
    && c.recs == AddAll(recs, Last(0, recs), stored).0
    && (c.constructedFromBuffer ==> LongestFitting(recs, calls, |stored|, c.bufferLength - |head|))
  }

  /** The next call of the run. */
  method AddPart(c: CoapPDU, n: uint16, value: OptionValue, ghost recs: seq<Record>, ghost head: seq<byte>,
                 ghost calls: seq<CoapOption>, ghost stored: seq<CoapOption>)
      returns (r: int, ghost more: seq<CoapOption>)
    requires Behind(c, recs, head, calls, stored) && |value| <= 65530
    requires |stored| < |calls| && calls[|stored|] == Opt(n, value)
    modifies c, c.pdu
    ensures c.pdu == old(c.pdu) || fresh(c.pdu)
    ensures c.constructedFromBuffer == old(c.constructedFromBuffer)
    ensures c.constructedFromBuffer ==> c.bufferLength == old(c.bufferLength)
    ensures r == 0 ==> Behind(c, recs, head, calls, more) && |more| == |stored| + 1
    ensures r != 0 ==> Left(c, recs, head, calls, stored) && more == stored
  {
    hide AddAll, AddRecord, Last, Encode, StoredAs, Stores, Head, LongestFitting, Tail;
    NextSize(recs, stored, calls);
    r, more := AddToRun(c, n, value, recs, stored);
    if r == 0 {
      assert more == more[..|stored|] + [more[|stored|]];
      StoredAsSnoc(stored, calls, more[|stored|]);
    } else {
      LongestStored(c, recs, stored, calls, head);
    }
  }

  /** The loop of `setURI`. With a fixed buffer as many calls are stored as fit. */
  method AddParts(c: CoapPDU, uri: seq<byte>) returns (res: int, ghost stored: seq<CoapOption>)
    requires Built(c) && 1 < |uri| <= 65530
    modifies c, c.pdu
    ensures Left(c, old(c.recs), old(Head(c.Bytes())), UriCalls(uri), stored) && (c.pdu == old(c.pdu) || fresh(c.pdu))
    ensures c.constructedFromBuffer == old(c.constructedFromBuffer)
    ensures c.constructedFromBuffer ==> c.bufferLength == old(c.bufferLength)
    ensures res == if |stored| < |UriCalls(uri)| then 1 else 0
    ensures res == 0 ==> Built(c)
  {
    hide Built, Head, Left, Behind, UriCalls, Find, Part, Next, Encode, Wire, CoapPDU.Valid, OptionsStart;
    BuiltIsValid(c);
    ghost var recs, head, calls := c.recs, Head(c.Bytes()), UriCalls(uri);
    BeforeParts(c, uri);
    stored := [];
    var startP, splitChar, optionType := 0, SLASH, URI_PATH;
    while !(startP == |uri| || startP + 1 == |uri|)
      invariant 0 <= startP <= |uri| && |stored| <= |calls|
      invariant calls[|stored|..] == Calls(uri, Splitter(startP, splitChar, optionType))
      invariant Behind(c, recs, head, calls, stored) && (c.pdu == old(c.pdu) || fresh(c.pdu))
      invariant c.constructedFromBuffer == old(c.constructedFromBuffer)
      invariant c.constructedFromBuffer ==> c.bufferLength == old(c.bufferLength)
      decreases |uri| - startP
    {
      var value, nextP, nextSplitChar, nextType := TakePart(uri, startP, splitChar, optionType);
      assert calls[|stored|] == calls[|stored|..][0] && calls[|stored| + 1..] == calls[|stored|..][1..];
      var r;
      r, stored := AddPart(c, optionType, value, recs, head, calls, stored);
      if r != 0 {
        return 1, stored;
      }
      startP, splitChar, optionType := nextP, nextSplitChar, nextType;
    }
    AllStored(c, recs, head, calls, stored);
    return 0, stored;
  }

  /** `setURI`: makes the calls, and stops at the first that fails. Only the one-character form ignores the failure. */
  method SetURI(c: CoapPDU, uri: seq<byte>) returns (res: int, ghost stored: seq<CoapOption>)
    requires Built(c)
    requires 0 !in uri && |uri| <= 65530
    modifies c, c.pdu
    ensures c.Valid() && c.payload == [] && (c.pdu == old(c.pdu) || fresh(c.pdu))
    ensures res == if uri == [] || (|uri| > 1 && |stored| < |UriCalls(uri)|) then 1 else 0
    ensures StoredAs(stored, UriCalls(uri)) && Head(c.Bytes()) == old(Head(c.Bytes()))
    ensures c.recs == AddAll(old(c.recs), Last(0, old(c.recs)), stored).0
    ensures c.constructedFromBuffer == old(c.constructedFromBuffer)
    ensures c.constructedFromBuffer ==>
              && c.bufferLength == old(c.bufferLength)
              && LongestFitting(old(c.recs), UriCalls(uri), |stored|, c.bufferLength - |old(Head(c.Bytes()))|)
    ensures res == 0 && |uri| > 1 ==> Built(c)
  {
    hide AddAll, AddRecord, Last, Encode, Stores, Find, Part, Next, Head, LongestFitting;
    ghost var recs, head, calls := c.recs, Head(c.Bytes()), UriCalls(uri);
    NoCallsYet(recs, Last(0, recs));
    if |uri| == 0 {
      AllStored(c, recs, head, calls, []);
      return 1, [];
    }
    if |uri| == 1 {
      var r, v := AddPart(c, URI_PATH, uri, recs, head, calls, []);
      if r == 0 {
        AllStored(c, recs, head, calls, v);
      }
      return 0, v;
    }
    res, stored := AddParts(c, uri);
  }

  // Printing

  /** What the loop of `getURI` has written: to the end, or cut short by a lone "/" component. */
  datatype Printed = Whole(text: seq<byte>) | Cut(text: seq<byte>)

  /** Space the loop needs in front of the terminating zero. */
  function Space(p: Printed): nat { if p.Whole? then |p.text| else |p.text| + 1 }

  /** The loop of `getURI` behind the text written so far; `firstQuery` and the separator are its variables. */
  function Print(opts: seq<CoapOption>, text: seq<byte>, firstQuery: bool, separator: byte): Printed
    requires text != []
    decreases opts
  {
    if opts == [] then Whole(text)
    else if !IsUriNumber(opts[0].number) then Print(opts[1..], text, firstQuery, separator)
    else
      var t := Turned(opts[0].number, text, firstQuery);
      if opts[0].value == [SLASH] then Cut(t) else
      Print(opts[1..], t + opts[0].value + [SeparatorFor(opts[0].number, separator)],
            firstQuery && opts[0].number != URI_QUERY, SeparatorFor(opts[0].number, separator))
  }

  /** The first query turns the separator in front of it into a '?'. */
  function Turned(number: uint16, text: seq<byte>, firstQuery: bool): (t: seq<byte>)
    requires text != []
    ensures |t| == |text|
  {
    if number == URI_QUERY && firstQuery then text[..|text| - 1] + [QUESTION] else text
  }

  function SeparatorFor(number: uint16, separator: byte): byte {
    if number == URI_QUERY then AMPERSAND else separator
  }

  lemma {:induction false} PrintGrows(opts: seq<CoapOption>, text: seq<byte>, firstQuery: bool, separator: byte)
    requires text != []
    ensures Space(Print(opts, text, firstQuery, separator)) >= |text|
    decreases opts
  {
    if opts != [] {
      var o := opts[0];
      if !IsUriNumber(o.number) {
        PrintGrows(opts[1..], text, firstQuery, separator);
      } else {
        PrintGrows(opts[1..], Turned(o.number, text, firstQuery) + o.value + [SeparatorFor(o.number, separator)],
                   firstQuery && o.number != URI_QUERY, SeparatorFor(o.number, separator));
      }
    }
  }

  /** What `getURI` prints for these options. */
  function PrintUri(opts: seq<CoapOption>): Printed { Print(opts, [SLASH], true, SLASH) }

  /** One turn of the loop of `getURI` for a path or query option, from position p of dst. */
  method PrintPart(dst: array<byte>, p: nat, limit: nat, number: uint16, value: seq<byte>, firstQuery: bool,
                   separator: byte)
      returns (outcome: int, q: nat)
    requires 0 < p <= limit < dst.Length && IsUriNumber(number)
    modifies dst
    ensures q <= limit && outcome in {0, 1, 2}
    ensures var t := Turned(number, old(dst[..p]), firstQuery);
            && (outcome == 0 ==> value != [SLASH] && p + |value| + 1 <= limit
                                 && dst[..q] == t + value + [SeparatorFor(number, separator)])
            && (outcome == 2 ==> value == [SLASH] && p + 1 <= limit && q == p && dst[..p] == t && dst[p] == 0)
            && (outcome == 1 ==> p + |value| + (if value == [SLASH] then 0 else 1) > limit)
  {
    q := p;
    if number == URI_QUERY && firstQuery {
      dst[p - 1] := QUESTION;
    }
    ghost var t := dst[..p];
    assert t == Turned(number, old(dst[..p]), firstQuery);
    if |value| > limit - p {
      return 1, q;
    }
    if |value| == 1 && value[0] == SLASH {
      dst[p] := 0;
      assert dst[..p] == t;
      return 2, q;
    }
    CopyTo(dst, p, value);
    q := p + |value|;
    if limit - q >= 1 {
      dst[q] := SeparatorFor(number, separator);
      q := q + 1;
      assert dst[..q] == dst[..q - 1] + [dst[q - 1]];
      return 0, q;
    }
    return 1, q;
  }

  /** `memcpy` of an option's value. */
  method CopyTo(dst: array<byte>, p: nat, value: seq<byte>)
    requires p + |value| <= dst.Length
    modifies dst
    ensures dst[..p + |value|] == old(dst[..p]) + value
  {
    forall i | 0 <= i < |value| {
      dst[p + i] := value[i];
    }
  }

  /** `getURI` into a buffer of dstlen bytes, for any accepted message; lengthBefore is what the output length held at
      the call. */
  method GetURI(c: CoapPDU, dst: array<byte>, dstlen: int, lengthBefore: int) returns (res: int, outLen: int)
    requires c.Parsed() && dst != c.pdu && dst.Length > 0 && dstlen <= dst.Length
    modifies dst
    ensures res == 0 || res == 1
    ensures dstlen <= 0 ==> res == 1 && outLen == 0 && dst[0] == 0
    ensures dstlen > 0 && c.Read() == [] ==> res == 0 && outLen == 0 && dst[0] == 0
    ensures dstlen > 0 && c.Read() != [] ==>
              var p := PrintUri(c.Read());
              && (res == 0 <==> Space(p) < dstlen)
              && (res == 0 && p.Whole? ==> 0 <= outLen == |p.text| - 1 < dst.Length
                                           && dst[..outLen] == p.text[..outLen] && dst[outLen] == 0)
              && (res == 0 && p.Cut? ==> outLen == 1 && |p.text| < dst.Length
                                         && dst[..|p.text|] == p.text && dst[|p.text|] == 0)
              && (res == 1 ==> outLen == lengthBefore)
  {
    hide Print, PrintUri, Walk, Walkable, Shows;
    c.ReadShown();
    if dstlen <= 0 {
      dst[0] := 0;
      return 1, 0;
    }
    if c.numOptions == 0 {
      dst[0] := 0;
      return 0, 0;
    }
    var options := c.GetOptions();
    res, outLen := PrintAll(c, options, dst, dstlen, lengthBefore, c.Read());
  }

  /** The loop of `getURI` and what follows it. */
  method PrintAll(c: CoapPDU, options: seq<OptionView>, dst: array<byte>, dstlen: int, lengthBefore: int,
                  ghost opts: seq<CoapOption>)
      returns (res: int, outLen: int)
    requires dst != c.pdu && 0 < dstlen <= dst.Length && Shows(c.pdu[..], options, opts)
    modifies dst
    ensures var p := PrintUri(opts);
            && (res == 0 <==> Space(p) < dstlen) && (res == 0 || res == 1)
            && (res == 0 && p.Whole? ==> 0 <= outLen == |p.text| - 1 < dst.Length
                                         && dst[..outLen] == p.text[..outLen] && dst[outLen] == 0)
            && (res == 0 && p.Cut? ==> outLen == 1 && |p.text| < dst.Length
                                       && dst[..|p.text|] == p.text && dst[|p.text|] == 0)
            && (res == 1 ==> outLen == lengthBefore)
  {
    var limit := dstlen - 1;
    ghost var all := PrintUri(opts);
    PrintGrows(opts, [SLASH], true, SLASH);
    if limit < 1 {
      return 1, lengthBefore;
    }
    dst[0] := SLASH;
    var p := 1;
    assert dst[..p] == [SLASH];
    var separator, firstQuery := SLASH, true;
    assert opts[0..] == opts;
    for i := 0 to |options|
      invariant 0 < p <= limit
      invariant Print(opts[i..], dst[..p], firstQuery, separator) == all
    {
      var o := options[i];
      assert opts[i..][0] == opts[i] && opts[i..][1..] == opts[i + 1..];
      assert OptionOf(c.pdu[..], o) == opts[i];
      if o.number == URI_PATH || o.number == URI_QUERY {
        var value := c.pdu[o.valueAt..o.valueAt + o.valueLength];
        assert value == opts[i].value;
        ghost var t := Turned(o.number, dst[..p], firstQuery);
        var outcome, q := PrintPart(dst, p, limit, o.number, value, firstQuery, separator);
        if outcome == 2 {
          return 0, 1;
        }
        if o.number == URI_QUERY {
          firstQuery := false;
          separator := AMPERSAND;
        }
        PrintGrows(opts[i + 1..], t + value + [separator], firstQuery, separator);
        if outcome == 1 {
          return 1, lengthBefore;
        }
        p := q;
      }
    }
    p := p - 1;
    ghost var text := dst[..p + 1];
    assert opts[|options|..] == [];
    dst[p] := 0;
    assert dst[..p] == text[..p];
    return 0, p;
  }
}
