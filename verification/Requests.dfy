/** What the client's packages say when they arrive: the options of a package in the receiver's option list, and a whole
    request from the input loop to the server's `getURI`. */
module Requests {
  import opened Bytes
  import opened OptionCodec
  import opened OptionList
  import opened Grammar
  import opened CoapPdu
  import opened Uri
  import opened UriRoundTrip
  import opened Exchange
  import opened BlockOption
  import opened Packages
  import opened ClientList

  // Options by their number

  /** The receiver's options with a number are those the package's options of this kind make, in their order. */
  lemma ArrivingOfKind(options: seq<PackageOption>, n: uint16, opts: seq<CoapOption>)
    requires n != URI_QUERY && StableSortOf(opts, PackageCalls(options))
    ensures WithNumber(opts, n) == WithNumber(PackageCalls(OfKind(options, n)), n)
  {
    hide PackageCalls, OfKind, Sorted;
    CallsOfKind(options, n);
  }

  /** Observe, Content-Format and Max-Age arrive as the lowest byte of their value, a Content-Format of 0 as no byte. */
  lemma NumbersArrive(options: seq<PackageOption>, n: uint16, opts: seq<CoapOption>)
    requires n in {6, 12, 14} && StableSortOf(opts, PackageCalls(options))
    requires forall o :: o in options && o.kind == n ==> o.content.Number?
    ensures |WithNumber(opts, n)| == |OfKind(options, n)|
    ensures forall k :: 0 <= k < |OfKind(options, n)| ==>
              var o := OfKind(options, n)[k];
              && o in options && o.content.Number?
              && WithNumber(opts, n)[k] == Opt(n, if n == 12 && o.content.n == 0 then [] else [o.content.n % 0x100])
  {
    hide StableSortOf, PackageCalls, WithNumber;
    ArrivingOfKind(options, n, opts);
    OfKindInside(options, n);
    NumberCalls(OfKind(options, n), n);
  }

  lemma {:induction false} OfKindInside(options: seq<PackageOption>, n: uint16)
    ensures forall o :: o in OfKind(options, n) ==> o in options && o.kind == n
    ensures (forall o :: o in options ==> o.kind != n) ==> OfKind(options, n) == []
  {
    if options != [] {
      OfKindInside(options[1..], n);
    }
  }

  lemma {:induction false} NumberCalls(options: seq<PackageOption>, n: uint16)
    requires n in {6, 12, 14} && forall o :: o in options ==> o.kind == n && o.content.Number?
    ensures var calls := WithNumber(PackageCalls(options), n);
            && |calls| == |options|
            && forall k :: 0 <= k < |options| ==>
                 var x := options[k].content.n;
                 calls[k] == Opt(n, if n == 12 && x == 0 then [] else [x % 0x100])
  {
    hide OptionCalls, WithNumber;
    if options == [] {
      NumberedNone(n);
    } else {
      NumberCalls(options[1..], n);
      NumberCall(options[0], n);
      FirstCall(OptionCalls(options[0]), PackageCalls(options[1..]), n);
    }
  }

  lemma NumberCall(o: PackageOption, n: uint16)
    requires n in {6, 12, 14} && o.kind == n && o.content.Number?
    ensures OptionCalls(o) == [Opt(n, if n == 12 && o.content.n == 0 then [] else [o.content.n % 0x100])]
  {}

  lemma FirstCall(first: seq<CoapOption>, rest: seq<CoapOption>, n: uint16)
    requires |first| == 1 && first[0].number == n
    ensures WithNumber(first + rest, n) == first + WithNumber(rest, n)
  {
    assert (first + rest)[1..] == rest;
  }

  /** Block1 and Block2 arrive as the number in network order that section 2.2 of RFC 7959 lays out. */
  lemma BlocksArrive(options: seq<PackageOption>, n: uint16, opts: seq<CoapOption>)
    requires n in {23, 27} && StableSortOf(opts, PackageCalls(options))
    requires forall o :: o in options && o.kind == n ==> o.content.BlockOf? && IsBlock(o.content.block)
    ensures |WithNumber(opts, n)| == |OfKind(options, n)|
    ensures forall k :: 0 <= k < |OfKind(options, n)| ==>
              var o, v := OfKind(options, n)[k], WithNumber(opts, n)[k].value;
              && o in options && o.content.BlockOf?
              && WithNumber(opts, n)[k].number == n
              && BigEndian(v) == o.content.block.number * 16 + o.content.block.more * 8 + o.content.block.size
              && |v| == if o.content.block.number < 16 then 1 else if o.content.block.number < 4096 then 2 else 3
  {
    hide StableSortOf, PackageCalls, WithNumber, BigEndian;
    ArrivingOfKind(options, n, opts);
    OfKindInside(options, n);
    BlockCalls(OfKind(options, n), n);
  }

  lemma {:induction false} BlockCalls(options: seq<PackageOption>, n: uint16)
    requires n in {23, 27}
    requires forall o :: o in options ==> o.kind == n && o.content.BlockOf? && IsBlock(o.content.block)
    ensures var calls := WithNumber(PackageCalls(options), n);
            && |calls| == |options|
            && forall k :: 0 <= k < |options| ==>
                 var b, v := options[k].content.block, calls[k].value;
                 && calls[k].number == n && BigEndian(v) == b.number * 16 + b.more * 8 + b.size
                 && |v| == if b.number < 16 then 1 else if b.number < 4096 then 2 else 3
  {
    hide BigEndian, OptionCalls, WithNumber;
    if options == [] {
      NumberedNone(n);
    } else {
      BlockCalls(options[1..], n);
      BlockCall(options[0], n);
      FirstCall(OptionCalls(options[0]), PackageCalls(options[1..]), n);
    }
  }

  lemma BlockCall(o: PackageOption, n: uint16)
    requires n in {23, 27} && o.kind == n && o.content.BlockOf? && IsBlock(o.content.block)
    ensures var b, calls := o.content.block, OptionCalls(o);
            && |calls| == 1 && calls[0].number == n
            && BigEndian(calls[0].value) == b.number * 16 + b.more * 8 + b.size
            && |calls[0].value| == if b.number < 16 then 1 else if b.number < 4096 then 2 else 3
  {
    hide BigEndian;
    BlockOnWire(o.content.block);
  }

  /** No other numbers arrive. */
  lemma OthersAbsent(options: seq<PackageOption>, n: uint16, opts: seq<CoapOption>)
    requires n !in {6, 11, 12, 14, 15, 23, 27} && StableSortOf(opts, PackageCalls(options))
    ensures WithNumber(opts, n) == []
  {
    hide StableSortOf;
    ArrivingOfKind(options, n, opts);
    OfKindInside(options, n);
    NoCalls(OfKind(options, n), n);
  }

  lemma {:induction false} NoCalls(options: seq<PackageOption>, n: uint16)
    requires n !in {6, 11, 12, 14, 15, 23, 27} && forall o :: o in options ==> o.kind == n
    ensures PackageCalls(options) == []
  {
    if options != [] {
      NoCalls(options[1..], n);
    }
  }

  // The URI

  /** A text without '?' makes no query. */
  lemma {:induction false} NoQueryCalls(u: seq<byte>, i: nat)
    requires i <= |u| < 0x1_0000 && QUESTION !in u
    ensures WithNumber(Calls(u, Splitter(i, SLASH, URI_PATH)), URI_QUERY) == []
    decreases |u| - i
  {
    hide Find;
    var st := Splitter(i, SLASH, URI_PATH);
    if InTurn(u, st) {
      NoQueryCalls(u, Next(u, st).startP);
      assert Calls(u, st)[1..] == Calls(u, Next(u, st));
    }
  }

  predicate WithoutQuery(o: PackageOption) {
    o.kind == URI_PATH && o.content.Text? ==> QUESTION !in o.content.text
  }

  lemma OtherQueryCalls(o: PackageOption)
    requires o.kind != URI_QUERY && WithoutQuery(o)
    ensures WithNumber(OptionCalls(o), URI_QUERY) == []
  {
    if o.content.Text? && o.kind == URI_PATH && |o.content.text| > 1 {
      NoQueryCalls(o.content.text, 0);
    }
  }

  /** Each Uri-Query option of a package arrives as one option with its text, when no Uri-Path brings queries too. */
  lemma {:induction false} QueryCalls(options: seq<PackageOption>)
    requires forall o :: o in options ==> WithoutQuery(o) && (o.kind == URI_QUERY ==> o.content.Text?)
    ensures var calls := WithNumber(PackageCalls(options), URI_QUERY);
            && |calls| == |OfKind(options, URI_QUERY)|
            && forall k :: 0 <= k < |calls| ==>
                 var o := OfKind(options, URI_QUERY)[k];
                 o in options && o.content.Text? && calls[k] == Opt(URI_QUERY, o.content.text)
  {
    hide WithNumber, WithoutQuery;
    if options == [] {
      NumberedNone(URI_QUERY);
    } else {
      var o, rest := options[0], options[1..];
      QueryCalls(rest);
      WithNumberConcat(OptionCalls(o), PackageCalls(rest), URI_QUERY);
      if o.kind == URI_QUERY {
        FirstCall(OptionCalls(o), PackageCalls(rest), URI_QUERY);
      } else {
        OtherQueryCalls(o);
      }
    }
  }

  /** The URI options that arrive from a package with one Uri-Path and no Uri-Query are those `setURI` makes of it. */
  lemma {:induction false} PathAlone(options: seq<PackageOption>, n: uint16)
    requires IsUriNumber(n) && OfKind(options, URI_QUERY) == []
    ensures WithNumber(PackageCalls(options), n) == WithNumber(PackageCalls(OfKind(options, URI_PATH)), n)
  {
    hide WithNumber;
    if options != [] {
      var o, rest := options[0], options[1..];
      PathAlone(rest, n);
      WithNumberConcat(OptionCalls(o), PackageCalls(rest), n);
      if o.kind == URI_PATH {
        assert OfKind(options, URI_PATH)[1..] == OfKind(rest, URI_PATH);
        WithNumberConcat(OptionCalls(o), PackageCalls(OfKind(rest, URI_PATH)), n);
      } else {
        NoUriCalls(o, n);
        assert OfKind(options, URI_PATH) == OfKind(rest, URI_PATH);
        assert [] + WithNumber(PackageCalls(rest), n) == WithNumber(PackageCalls(rest), n);
      }
    }
  }

  lemma NoUriCalls(o: PackageOption, n: uint16)
    requires IsUriNumber(n) && !IsUriNumber(o.kind)
    ensures WithNumber(OptionCalls(o), n) == []
  {}

  /** The receiver's `getURI` prints the path a package was given, and its queries, whatever other options there are. It
      drops a single query of one character. */
  lemma PathIsPrinted(options: seq<PackageOption>, ps: seq<seq<byte>>, qs: seq<seq<byte>>, opts: seq<CoapOption>)
    requires ps != [] && Parts(ps, qs) && |UriOf(ps, qs)| < 0x1_0000 && StableSortOf(opts, PackageCalls(options))
    requires OfKind(options, URI_PATH) == [PackageOption(URI_PATH, Text(UriOf(ps, qs)))]
    requires OfKind(options, URI_QUERY) == []
    ensures UriOptions(opts) == OptionsOf(URI_PATH, ps) + OptionsOf(URI_QUERY, Kept(qs))
    ensures PrintUri(opts).Whole? && |PrintUri(opts).text| == |UriOf(ps, Kept(qs))| + 1
    ensures PrintUri(opts).text[..|UriOf(ps, Kept(qs))|] == UriOf(ps, Kept(qs))
  {
    hide UriOf, WithNumber, OfKind, PackageCalls, Print, PrintUri, UriOptions, Sorted, UriCalls;
    var u := UriOf(ps, qs);
    CallsOfUri(ps, qs);
    OnePath(u);
    PathAlone(options, URI_PATH);
    PathAlone(options, URI_QUERY);
    NumbersOfParts(ps, Kept(qs));
    UriOptionsOfSorted(opts);
    PrintParts(opts, ps, Kept(qs));
  }

  lemma OnePath(u: OptionValue)
    ensures PackageCalls([PackageOption(URI_PATH, Text(u))]) == UriCalls(u)
  {
    var o := PackageOption(URI_PATH, Text(u));
    assert [o][1..] == [];
  }

  /** What `setURI` makes of a URI. */
  lemma CallsOfUri(ps: seq<seq<byte>>, qs: seq<seq<byte>>)
    requires ps != [] && Parts(ps, qs) && |UriOf(ps, qs)| < 0x1_0000
    ensures UriCalls(UriOf(ps, qs)) == OptionsOf(URI_PATH, ps) + OptionsOf(URI_QUERY, Kept(qs)) && Parts(ps, Kept(qs))
  {
    hide AddAll, Options, Print;
    UriSurvivesIff([], ps, qs);
  }

  /** A path and the queries that a package was given as options of their own are printed as one URI. */
  lemma PathAndQueriesArePrinted(options: seq<PackageOption>, ps: seq<seq<byte>>, qs: seq<seq<byte>>,
                                 opts: seq<CoapOption>)
    requires ps != [] && Parts(ps, qs) && |UriOf(ps, [])| < 0x1_0000 && StableSortOf(opts, PackageCalls(options))
    requires OfKind(options, URI_PATH) == [PackageOption(URI_PATH, Text(UriOf(ps, [])))]
    requires |OfKind(options, URI_QUERY)| == |qs|
    requires forall k :: 0 <= k < |qs| ==> OfKind(options, URI_QUERY)[k] == PackageOption(URI_QUERY, Text(qs[k]))
    ensures PrintUri(opts).Whole? && |PrintUri(opts).text| == |UriOf(ps, qs)| + 1
    ensures PrintUri(opts).text[..|UriOf(ps, qs)|] == UriOf(ps, qs)
  {
    hide UriOf, WithNumber, PackageCalls, Print, PrintUri, UriOptions, Sorted, UriCalls;
    var u := UriOf(ps, []);
    CallsOfUri(ps, []);
    OnePath(u);
    CallsOfKind(options, URI_PATH);
    NumbersOfParts(ps, []);
    PathTextClean(ps);
    NumbersOfParts(ps, qs);
    KindsInside(options, u, qs);
    QueryCalls(options);
    assert WithNumber(PackageCalls(options), URI_QUERY) == OptionsOf(URI_QUERY, qs);
    UriOptionsOfSorted(opts);
    PrintParts(opts, ps, qs);
  }

  lemma {:induction false} PathTextClean(ps: seq<seq<byte>>)
    requires Parts(ps, [])
    ensures QUESTION !in UriOf(ps, [])
  {
    if ps != [] {
      PathTextClean(ps[1..]);
      assert Paths(ps[1..]) + [] == Paths(ps[1..]) && Paths(ps) + [] == Paths(ps);
    }
  }

  lemma KindsInside(options: seq<PackageOption>, u: OptionValue, qs: seq<seq<byte>>)
    requires QUESTION !in u && |OfKind(options, URI_QUERY)| == |qs|
    requires forall k :: 0 <= k < |qs| ==> OfKind(options, URI_QUERY)[k].content.Text?
    requires OfKind(options, URI_PATH) == [PackageOption(URI_PATH, Text(u))]
    ensures forall o :: o in options ==> WithoutQuery(o) && (o.kind == URI_QUERY ==> o.content.Text?)
  {
    hide OfKind;
    InOfKind(options, URI_PATH);
    InOfKind(options, URI_QUERY);
  }

  lemma {:induction false} InOfKind(options: seq<PackageOption>, n: uint16)
    ensures forall o :: o in options && o.kind == n ==> o in OfKind(options, n)
  {
    if options != [] {
      InOfKind(options[1..], n);
    }
  }

  // A whole request

  /** A request of the input loop, as the server reads it: a confirmable message with the method, the ID and the
      payload; an empty Content-Format, a Max-Age of 1, no other option, and the URI. */
  lemma RequestIsRead(id: uint16, code: byte, ps: seq<seq<byte>>, qs: seq<seq<byte>>, payload: seq<byte>, s: seq<byte>)
    requires ps != [] && Parts(ps, qs) && |UriOf(ps, qs)| < 128
    requires var q := Request(id, 0x00, code, [], RequestOptions(UriOf(ps, qs)), payload);
             Ready(q) && EncodeMessage(MessageOf(q)) <= s && |EncodeMessage(MessageOf(q))| + 2 <= |s|
    ensures var q := Request(id, 0x00, code, [], RequestOptions(UriOf(ps, qs)), payload);
            var len := |EncodeMessage(MessageOf(q))|;
            && Reads(s, len, MessageOf(q))
            && 4 + |payload| <= len && s[0] == 0x40 && s[1] == code && s[2] == id / 0x100 && s[3] == id % 0x100
            && s[len - |payload|..len] == payload
            && forall opts :: StableSortOf(opts, PackageCalls(q.options)) ==>
                 && WithNumber(opts, 12) == [Opt(12, [])] && WithNumber(opts, 14) == [Opt(14, [1])]
                 && (forall n: uint16 :: n !in {11, 12, 14, 15} ==> WithNumber(opts, n) == [])
                 && PrintUri(opts).Whole? && |PrintUri(opts).text| == |UriOf(ps, Kept(qs))| + 1
                 && PrintUri(opts).text[..|UriOf(ps, Kept(qs))|] == UriOf(ps, Kept(qs))
  {
    hide UriOf, EncodeMessage, Reads, StableSortOf, PackageCalls, WithNumber, PrintUri, Sendable, OfKind;
    var uri := UriOf(ps, qs);
    var q := Request(id, 0x00, code, [], RequestOptions(uri), payload);
    MessageRoundTrip(MessageOf(q), s);
    RequestBytes(q, s);
    KindsOfRequest(uri);
    forall opts | StableSortOf(opts, PackageCalls(q.options))
      ensures && WithNumber(opts, 12) == [Opt(12, [])] && WithNumber(opts, 14) == [Opt(14, [1])]
              && (forall n: uint16 :: n !in {11, 12, 14, 15} ==> WithNumber(opts, n) == [])
              && PrintUri(opts).Whole? && |PrintUri(opts).text| == |UriOf(ps, Kept(qs))| + 1
              && PrintUri(opts).text[..|UriOf(ps, Kept(qs))|] == UriOf(ps, Kept(qs))
    {
      PathIsPrinted(q.options, ps, qs, opts);
      NumbersArrive(q.options, 12, opts);
      NumbersArrive(q.options, 14, opts);
      forall n: uint16 | n !in {11, 12, 14, 15}
        ensures WithNumber(opts, n) == []
      {
        NoneOfRequest(uri, n, opts);
      }
    }
  }

  lemma RequestBytes(q: Request, s: seq<byte>)
    requires Sendable(MessageOf(q)) && q.kind == 0x00 && q.token == []
    requires EncodeMessage(MessageOf(q)) <= s
    ensures var len := |EncodeMessage(MessageOf(q))|;
            && 4 + |q.payload| <= len && s[0] == 0x40 && s[1] == q.code
            && s[2] == q.messageID / 0x100 && s[3] == q.messageID % 0x100
            && s[len - |q.payload|..len] == q.payload
  {
    hide Encode, PackageCalls, AddAll, Tail, CodeOk;
    var m := MessageOf(q);
    HeadIsPrefix(m, s);
    PartsOfMessage(m, s);
    TailIs(m.payload);
    var h := MessageHead(m);
    assert h[0] == 0x40 && h[1] == q.code && h[2] == q.messageID / 0x100 && h[3] == q.messageID % 0x100;
    assert s[..4] == h;
  }

  lemma KindsOfRequest(uri: OptionValue)
    ensures OfKind(RequestOptions(uri), 12) == [PackageOption(12, Number(0))]
    ensures OfKind(RequestOptions(uri), 14) == [PackageOption(14, Number(1))]
    ensures OfKind(RequestOptions(uri), 11) == [PackageOption(11, Text(uri))]
    ensures OfKind(RequestOptions(uri), 15) == []
  {
    var a, b, c := PackageOption(12, Number(0)), PackageOption(14, Number(1)), PackageOption(11, Text(uri));
    assert RequestOptions(uri) == [a, b, c];
    hide OfKind;
    OfKindOfThree(a, b, c, 11);
    OfKindOfThree(a, b, c, 12);
    OfKindOfThree(a, b, c, 14);
    OfKindOfThree(a, b, c, 15);
  }

  lemma OfKindOfThree(a: PackageOption, b: PackageOption, c: PackageOption, n: uint16)
    ensures OfKind([a, b, c], n) == (if a.kind == n then [a] else []) + (if b.kind == n then [b] else [])
                                    + (if c.kind == n then [c] else [])
  {
    assert [a, b, c][1..] == [b, c] && [b, c][1..] == [c] && [c][1..] == [];
    assert OfKind([c], n) == if c.kind == n then [c] else [];
    assert OfKind([b, c], n) == (if b.kind == n then [b] else []) + (if c.kind == n then [c] else []);
  }

  lemma NoneOfRequest(uri: OptionValue, n: uint16, opts: seq<CoapOption>)
    requires n !in {11, 12, 14, 15} && StableSortOf(opts, PackageCalls(RequestOptions(uri)))
    ensures WithNumber(opts, n) == []
  {
    hide StableSortOf, WithNumber;
    ArrivingOfKind(RequestOptions(uri), n, opts);
    OfKindInside(RequestOptions(uri), n);
    NumberedNone(n);
  }

  /** The input loop asks, the bytes travel, and the server reads: when the client's object had room, the server's has
      the type, method, ID and payload of the request, and its `getURI` prints the URI the user typed, but for a single
      query of one character. */
  method Ask(client: Client, c: CoapPDU, code: byte, ps: seq<seq<byte>>, qs: seq<seq<byte>>, payload: seq<byte>,
             buffer: array<byte>, dst: array<byte>)
      returns (whole: bool, received: CoapPDU, accepted: int, res: int, outLen: int)
    requires client.Linked() && AllReady(client.list) && c.Sized() && CodeOk(code)
    requires ps != [] && Parts(ps, qs) && |UriOf(ps, qs)| < 128 && |UriOf(ps, qs)| + 2 <= dst.Length
    requires buffer != c.pdu && buffer != dst
    requires var q := Request(client.counter, 0x00, code, [], RequestOptions(UriOf(ps, qs)), payload);
             Ready(q) && |EncodeMessage(MessageOf(q))| + 2 <= buffer.Length
    modifies client, client.nodes, c, c.pdu, buffer, dst
    ensures whole ==> !HasID(old(client.list), old(client.counter))
    ensures c.constructedFromBuffer && !HasID(old(client.list), old(client.counter)) ==>
              var q := Request(old(client.counter), 0x00, code, [], RequestOptions(UriOf(ps, qs)), payload);
              Ready(q) && (whole <==> |EncodeMessage(MessageOf(q))| <= old(c.bufferLength))
    ensures whole ==>
              && accepted == 1 && received.pdu == buffer && buffer.Length >= 4
              && buffer[0] == 0x40 && buffer[1] == code
              && buffer[2] == old(client.counter) / 0x100 && buffer[3] == old(client.counter) % 0x100
              && 0 <= received.pduLength - |payload| && received.pduLength <= buffer.Length
              && buffer[received.pduLength - |payload|..received.pduLength] == payload
    ensures whole ==>
              && res == 0 && outLen == |UriOf(ps, Kept(qs))| < dst.Length
              && dst[..outLen] == UriOf(ps, Kept(qs)) && dst[outLen] == 0
  {
    hide UriOf, EncodeMessage, Reads, StableSortOf, PackageCalls, WithNumber, PrintUri, Sendable, OfKind, AllReady,
         RequestOptions, Client.Linked, HasID, CodeOk, Carries, Parts, Kept, Shows, CoapPDU.Valid, CoapPDU.Parsed,
         CoapPDU.Read;
    var id, uri := client.counter, UriOf(ps, qs);
    ghost var m := MessageOf(Request(id, 0x00, code, [], RequestOptions(uri), payload));
    RequestIsReady(id, code, uri, payload);
    received, accepted, res, outLen := c, 0, 1, 0;
    whole := client.NewRequest(Some(code), uri, payload, c);
    if whole {
      EncodingHasHeader(m);
      KeptIsShorter(ps, qs);
      PrintOfNone();
      var len := Deliver(c, buffer);
      RequestIsRead(id, code, ps, qs, payload, buffer[..]);
      var options;
      received, accepted, options := ReceiveMessage(buffer, len, m);
      res, outLen := GetURI(received, dst, dst.Length, 0);
    }
  }
}
