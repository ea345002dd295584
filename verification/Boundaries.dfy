/** Inputs at which the message object does not do what its documentation says. */
module Boundaries {
  import opened Bytes
  import opened OptionCodec
  import opened OptionList
  import opened CoapPdu

  /** `addOption` remembers the number of an option that did not fit: tried again with a shorter value, option 100
      goes into the message as option 0. */
  method FailedAddMisnumbersTheNext(buffer: array<byte>) returns (c: CoapPDU, first: int, second: int)
    requires buffer.Length == 6
    modifies buffer
    ensures first == 1 && second == 0 && c.Valid() && c.Contents() == [Opt(0, [])]
  {
    hide Wire, Encode, AddRecord, NextMax, Stores, Options, Last;
    FirstOption(100, [7, 7, 7, 7]);
    NextOption(100);
    c := new CoapPDU.FromBuffer(buffer, 6, 0);
    ghost var stored;
    first, stored := c.AddOption(100, [7, 7, 7, 7]);
    second, stored := c.AddOption(100, []);
  }

  /** What the two calls would store, and what the first leaves as the maximum. */
  lemma FirstOption(n: uint16, v: OptionValue)
    ensures Numbered([]) && NextMax([], 0, n) == n
    ensures |Encode(AddRecord([], 0, n, v))| == 1 + Ext(n) + Ext(|v|) + |v|
  {
    assert AddRecord([], 0, n, v) == [Record(n, v)];
    RecordSize(n, v);
  }

  lemma NextOption(n: uint16)
    ensures |Encode(AddRecord([], n, n, []))| == 1
    ensures forall stored: OptionValue :: Stores(stored, []) ==> Options(0, AddRecord([], n, n, stored)) == [Opt(0, [])]
  {
    assert AddRecord([], n, n, []) == [Record(0, [])];
    RecordSize(0, []);
  }

  /** `setPayload` on a message that has a payload of another length copies through the pointer taken before the
      reallocation: when the block moves, both calls succeed and the message keeps the old bytes. */
  method ResizedPayloadIsLost() returns (c: CoapPDU, block: array<byte>, first: int, second: int)
    ensures c.Shaped() && fresh(c) && fresh(c.pdu) && fresh(block)
    ensures first == 0 ==> |c.payload| == if second == 0 then 5 else 3
    ensures first == second == 0 ==>
              && (c.pdu != block ==> c.payload[..3] == [1, 2, 3] && !c.Valid())
              && (c.pdu == block ==> c.payload == [9, 9, 9, 9, 9] && c.Valid())
    ensures first == 0 && second == 1 ==> c.pdu == block && c.payload == [1, 2, 3] && c.Valid()
    ensures first == 1 ==> c.Valid() && c.payload == if second == 0 then [9, 9, 9, 9, 9] else []
  {
    c := new CoapPDU.Dynamic();
    first := c.SetPayload([1, 2, 3]);
    block := c.pdu;
    second := c.SetPayload([9, 9, 9, 9, 9]);
  }
}
