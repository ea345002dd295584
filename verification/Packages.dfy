/** The client's packages: their options, and the message a package is sent as. */
module Packages {
  import opened Bytes
  import opened OptionCodec
  import opened OptionList
  import opened CoapPdu
  import opened Uri
  import opened Exchange
  import opened BlockOption

  const OBSERVE: uint16 := 6
  const CONTENT_FORMAT: uint16 := 12
  const MAX_AGE: uint16 := 14
  const BLOCK1: uint16 := 27
  const CONFIRMABLE: byte := 0x00

  /** The payload of an option of a package, by the kind of the option. */
  datatype OptionContent = Text(text: OptionValue) | Number(n: nat) | BlockOf(block: Block)

  datatype PackageOption = PackageOption(kind: uint16, content: OptionContent)

  /** The fields of a package without its link. */
  datatype Request = Request(messageID: uint16, kind: byte, code: byte, token: seq<byte>,
                             options: seq<PackageOption>, payload: seq<byte>)

  // Options of a package

  /** `mbtk_coap_set_option`: the first option of the kind is changed; without one a new option is put in front. */
  function SetOption(options: seq<PackageOption>, kind: uint16, content: OptionContent): seq<PackageOption> {
    if exists k :: 0 <= k < |options| && options[k].kind == kind then ChangeOption(options, kind, content)
    else [PackageOption(kind, content)] + options
  }

  function ChangeOption(options: seq<PackageOption>, kind: uint16, content: OptionContent): (res: seq<PackageOption>)
    ensures |res| == |options|
  {
    if options == [] then []
    else if options[0].kind == kind then [PackageOption(kind, content)] + options[1..]
    else [options[0]] + ChangeOption(options[1..], kind, content)
  }

  /** The options of one kind. */
  function OfKind(options: seq<PackageOption>, kind: uint16): seq<PackageOption> {
    if options == [] then []
    else (if options[0].kind == kind then [options[0]] else []) + OfKind(options[1..], kind)
  }

  /** The options of all other kinds. */
  function NotOfKind(options: seq<PackageOption>, kind: uint16): seq<PackageOption> {
    if options == [] then []
    else (if options[0].kind != kind then [options[0]] else []) + NotOfKind(options[1..], kind)
  }

  /** Setting an option of which there is at most one leaves exactly one, with the new content, and no other touched. */
  lemma {:induction false} SetOptionKeepsOthers(options: seq<PackageOption>, kind: uint16, content: OptionContent)
    requires |OfKind(options, kind)| <= 1
    ensures OfKind(SetOption(options, kind, content), kind) == [PackageOption(kind, content)]
    ensures NotOfKind(SetOption(options, kind, content), kind) == NotOfKind(options, kind)
  {
    if exists k :: 0 <= k < |options| && options[k].kind == kind {
      ChangeOptionKeepsOthers(options, kind, content);
    } else {
      NoneOfKind(options, kind);
      assert SetOption(options, kind, content)[1..] == options;
    }
  }

  lemma {:induction false} NoneOfKind(options: seq<PackageOption>, kind: uint16)
    requires forall k :: 0 <= k < |options| ==> options[k].kind != kind
    ensures OfKind(options, kind) == []
  {
    if options != [] {
      NoneOfKind(options[1..], kind);
    }
  }

  lemma {:induction false} ChangeOptionKeepsOthers(options: seq<PackageOption>, kind: uint16, content: OptionContent)
    requires |OfKind(options, kind)| <= 1 && exists k :: 0 <= k < |options| && options[k].kind == kind
    ensures OfKind(ChangeOption(options, kind, content), kind) == [PackageOption(kind, content)]
    ensures NotOfKind(ChangeOption(options, kind, content), kind) == NotOfKind(options, kind)
  {
    var res := ChangeOption(options, kind, content);
    if options[0].kind == kind {
      assert res[1..] == options[1..];
    } else {
      var k :| 0 <= k < |options| && options[k].kind == kind;
      assert options[1..][k - 1].kind == kind;
      assert res[1..] == ChangeOption(options[1..], kind, content);
      ChangeOptionKeepsOthers(options[1..], kind, content);
    }
  }

  lemma {:induction false} ChangeOptionAt(options: seq<PackageOption>, kind: uint16, content: OptionContent, k: nat)
    requires k < |options| && options[k].kind == kind && forall i :: 0 <= i < k ==> options[i].kind != kind
    ensures ChangeOption(options, kind, content) == options[k := PackageOption(kind, content)]
  {
    if k > 0 {
      assert options[1..][k - 1] == options[k];
      ChangeOptionAt(options[1..], kind, content, k - 1);
    }
  }

  // On the wire

  /** The calls of `addOption` that `mbtk_coap_option_add` makes; most kinds are left out. */
  function OptionCalls(o: PackageOption): seq<CoapOption> {
    match o.content
    case BlockOf(b) => if o.kind in {BLOCK1, BLOCK2} then [Opt(o.kind, EncodeBlock(b))] else []
    case Number(n) =>
      if o.kind in {MAX_AGE, OBSERVE} then [Opt(o.kind, [n % 0x100])]
      else if o.kind == CONTENT_FORMAT then [Opt(o.kind, if n == 0 then [] else [n % 0x100])]
      else []
    case Text(t) =>
      if o.kind == URI_QUERY then [Opt(o.kind, t)] else if o.kind == URI_PATH then UriCalls(t) else []
  }

  /** The option loop of `mbtk_coap_coap_send`. */
  function PackageCalls(options: seq<PackageOption>): seq<CoapOption> {
    if options == [] then [] else OptionCalls(options[0]) + PackageCalls(options[1..])
  }

  function MessageOf(r: Request): Message {
    Message(r.kind, r.code, r.messageID, r.token, PackageCalls(r.options), r.payload)
  }

  lemma {:induction false} WithNumberConcat(a: seq<CoapOption>, b: seq<CoapOption>, n: uint16)
    ensures WithNumber(a + b, n) == WithNumber(a, n) + WithNumber(b, n)
  {
    hide WithNumber;
    if a == [] {
      assert a + b == b && WithNumber([], n) + WithNumber(b, n) == WithNumber(b, n) by {
        NumberedNone(n);
      }
    } else {
      var head := if a[0].number == n then [a[0]] else [];
      WithNumberConcat(a[1..], b, n);
      NumberedStep(a, n, head);
      NumberedStep(a + b, n, head);
      assert (a + b)[1..] == a[1..] + b;
      AppendAssociates(head, WithNumber(a[1..], n), WithNumber(b, n));
    }
  }

  lemma NumberedNone(n: uint16)
    ensures WithNumber([], n) == []
  {}

  lemma NumberedStep(a: seq<CoapOption>, n: uint16, head: seq<CoapOption>)
    requires a != [] && head == if a[0].number == n then [a[0]] else []
    ensures WithNumber(a, n) == head + WithNumber(a[1..], n)
  {}

  lemma AppendAssociates(a: seq<CoapOption>, b: seq<CoapOption>, c: seq<CoapOption>)
    ensures (a + b) + c == a + (b + c)
  {}

  lemma {:induction false} CallsAreUri(u: seq<byte>, st: Splitter, n: uint16)
    requires |u| < 0x1_0000 && IsUriNumber(st.optionType) && !IsUriNumber(n)
    ensures WithNumber(Calls(u, st), n) == []
    decreases |u| - st.startP
  {
    if InTurn(u, st) {
      CallsAreUri(u, Next(u, st), n);
      assert Calls(u, st)[1..] == Calls(u, Next(u, st));
    }
  }

  lemma OptionCallsOfOther(o: PackageOption, n: uint16)
    requires o.kind != n && n != URI_QUERY
    ensures WithNumber(OptionCalls(o), n) == []
  {
    if o.content.Text? && o.kind == URI_PATH && |o.content.text| > 1 {
      CallsAreUri(o.content.text, START, n);
    }
  }

  /** Only the package's options of a kind make calls with its number; a Uri-Path can also make those of Uri-Query. */
  lemma {:induction false} CallsOfKind(options: seq<PackageOption>, n: uint16)
    requires n != URI_QUERY
    ensures WithNumber(PackageCalls(options), n) == WithNumber(PackageCalls(OfKind(options, n)), n)
  {
    if options != [] {
      var o, rest := options[0], options[1..];
      CallsOfKind(rest, n);
      WithNumberConcat(OptionCalls(o), PackageCalls(rest), n);
      if o.kind == n {
        assert OfKind(options, n)[1..] == OfKind(rest, n);
        WithNumberConcat(OptionCalls(o), PackageCalls(OfKind(rest, n)), n);
      } else {
        OptionCallsOfOther(o, n);
        assert OfKind(options, n) == OfKind(rest, n);
      }
    }
  }

  /** The request for a block on the wire: whatever other options the package has, and whatever follows the message in
      the receiver's buffer, the server reads the message and finds exactly this block number in its Block2 option. */
  lemma AskedBlockIsRead(q: Request, b: Block, s: seq<byte>)
    requires OfKind(q.options, BLOCK2) == [PackageOption(BLOCK2, BlockOf(b))] && IsBlock(b)
    requires Sendable(MessageOf(q)) && EncodeMessage(MessageOf(q)) <= s && |EncodeMessage(MessageOf(q))| + 2 <= |s|
    ensures Reads(s, |EncodeMessage(MessageOf(q))|, MessageOf(q))
    ensures forall opts :: StableSortOf(opts, PackageCalls(q.options)) ==> Received(opts) == Some(b)
  {
    hide Reads, EncodeMessage, DecodeBlock, Sorted;
    MessageRoundTrip(MessageOf(q), s);
    OneBlockCall(q.options, b);
    BlockRoundTripIff(b);
    forall opts | StableSortOf(opts, PackageCalls(q.options))
      ensures Received(opts) == Some(b)
    {
      assert WithNumber(opts, BLOCK2) == WithNumber(PackageCalls(q.options), BLOCK2);
      LastValueOfOnly(opts, BLOCK2, Opt(BLOCK2, EncodeBlock(b)));
    }
  }

  lemma OneBlockCall(options: seq<PackageOption>, b: Block)
    requires OfKind(options, BLOCK2) == [PackageOption(BLOCK2, BlockOf(b))]
    ensures WithNumber(PackageCalls(options), BLOCK2) == [Opt(BLOCK2, EncodeBlock(b))]
  {
    hide EncodeBlock;
    var o := PackageOption(BLOCK2, BlockOf(b));
    CallsOfKind(options, BLOCK2);
    assert [o][1..] == [] && PackageCalls([o]) == OptionCalls(o) == [Opt(BLOCK2, EncodeBlock(b))];
  }

  /** A package that the message object can hold: type, code, token and options are in range. */
  predicate Ready(r: Request) { Sendable(MessageOf(r)) }

  lemma {:induction false} CallsOfSetOption(options: seq<PackageOption>, kind: uint16, content: OptionContent)
    ensures forall c :: c in PackageCalls(SetOption(options, kind, content)) ==>
              c in PackageCalls(options) || c in OptionCalls(PackageOption(kind, content))
  {
    hide OptionCalls;
    if exists k :: 0 <= k < |options| && options[k].kind == kind {
      CallsOfChangeOption(options, kind, content);
    } else {
      assert SetOption(options, kind, content)[1..] == options;
    }
  }

  lemma {:induction false} CallsOfChangeOption(options: seq<PackageOption>, kind: uint16, content: OptionContent)
    ensures forall c :: c in PackageCalls(ChangeOption(options, kind, content)) ==>
              c in PackageCalls(options) || c in OptionCalls(PackageOption(kind, content))
  {
    hide OptionCalls;
    if options != [] {
      var res := ChangeOption(options, kind, content);
      if options[0].kind == kind {
        assert res[1..] == options[1..];
      } else {
        CallsOfChangeOption(options[1..], kind, content);
        assert res[1..] == ChangeOption(options[1..], kind, content);
      }
    }
  }

  /** A package stays ready when a Block2 option is set and its ID is renewed. */
  lemma BlockKeepsReady(r: Request, id: uint16, b: Block)
    requires Ready(r)
    ensures Ready(r.(messageID := id, options := SetOption(r.options, BLOCK2, BlockOf(b))))
  {
    hide PackageCalls, SetOption, CodeOk;
    CallsOfSetOption(r.options, BLOCK2, BlockOf(b));
    assert |EncodeBlock(b)| <= 3;
  }
}
