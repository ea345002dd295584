/** What the 16-bit readers of `validate` do to options with larger deltas or lengths, which section 3.1 of RFC 7252
    allows up to 0xFFFF + 269. */
module Narrowing {
  import opened Bytes
  import opened OptionCodec
  import opened Grammar

  // Inputs

  /** A narrowed length lets `validate` accept an option whose value is not there: 0xFF00 + 269 bytes are read as 13. */
  lemma NarrowedLengthIsAccepted(s: seq<byte>)
    requires |s| == 17 && s[0] == 0x0E && s[1] == 0xFF && forall i :: 2 <= i < 17 ==> s[i] == 0
    ensures Scan(s, 15, 0, 0) == Accept(1, 0) && !WellFormed(s, 15, 0)
  {
    assert Upper(s[0]) == 0 && Lower(s[0]) == 14 && RawLength(s, 0) == 0x1_000D && RawDelta(s, 0) == 0;
    assert TotalAt(s, 0) == 15;
    assert Scan(s, 15, 15, 1) == Accept(1, 0);
  }

  /** A narrowed delta makes it reject a message: 0xFEF3 + 269 is read as 0, and its second byte as a header. */
  lemma NarrowedDeltaIsRejected(s: seq<byte>)
    requires |s| == 5 && s[0] == 0xE0 && s[1] == 0xFE && s[2] == 0xF3
    ensures Scan(s, 3, 0, 0) == Reject && WellFormed(s, 3, 0)
  {
    assert Upper(s[0]) == 14 && Lower(s[0]) == 0 && RawDelta(s, 0) == 0x1_0000 && RawLength(s, 0) == 0;
    assert TotalAt(s, 0) == 1 && Upper(s[1]) == 15;
    assert Scan(s, 3, 1, 1) == Reject;
    assert WellFormed(s, 3, 3);
  }

  /** An option of which the PDU holds three bytes; its extended length stands behind the PDU. */
  lemma LengthBehind(s: seq<byte>, hi: byte, lo: byte)
    requires |s| == 5 && s[0] == 0xEE && s[1] == s[2] == 0 && s[3] == hi && s[4] == lo
    ensures Readable(s, 0) && Upper(s[0]) == Lower(s[0]) == 14 && HeaderFits(s, 3, 0)
    ensures RawDelta(s, 0) == 269 && RawLength(s, 0) == Load16(hi, lo) + 269
    ensures TotalAt(s, 0) == 3 + Ext(Wrap16(Load16(hi, lo) + 269)) + Wrap16(Load16(hi, lo) + 269)
  {
    hide Upper, Lower, Load16, Wrap16;
    NibblesOfEE();
  }

  lemma NibblesOfEE()
    ensures Upper(0xEE) == Lower(0xEE) == 14 && Load16(0, 0) == 0 && Wrap16(269) == 269
  {}

  /** With narrowed values the bytes behind the PDU can decide: a length of 0xFEF3 + 269 is read as 0. */
  lemma BytesBehindDecide(s: seq<byte>, t: seq<byte>)
    requires |s| == |t| == 5 && s[..3] == t[..3] == [0xEE, 0, 0]
    requires s[3] == 0xFE && s[4] == 0xF3 && t[3] == t[4] == 0
    ensures Scan(s, 3, 0, 0) == Accept(1, 0) && Scan(t, 3, 0, 0) == Reject
  {
    hide TotalAt;
    assert s[0] == s[..3][0] && s[1] == s[..3][1] && s[2] == s[..3][2];
    assert t[0] == t[..3][0] && t[1] == t[..3][1] && t[2] == t[..3][2];
    LengthBehind(s, 0xFE, 0xF3);
    LengthBehind(t, 0, 0);
    assert Scan(s, 3, 3, 1) == Accept(1, 0);
  }

  // Exactly when

  /** h is the header of an option with its extended values. */
  predicate IsHeader(h: seq<byte>) {
    && Readable(h, 0) && |h| == 1 + DeltaNeeds(h[0]) + LengthNeeds(h[0])
    && Upper(h[0]) != 15 && Lower(h[0]) != 15
  }

  /** A buffer that begins with the header, in which nothing behind this option is narrowed. */
  predicate Follows(h: seq<byte>, s: seq<byte>, len: nat)
    requires IsHeader(h)
  {
    h <= s && 0 < len && len + 2 <= |s| && (RawSize(h, 0) <= len ==> NoWrap(s, len, RawSize(h, 0)))
  }

  predicate JudgedRight(s: seq<byte>, len: nat)
    requires len + 2 <= |s|
  {
    WellFormed(s, len, 0) <==> Scan(s, len, 0, 0).Accept?
  }

  lemma SameHeader(h: seq<byte>, s: seq<byte>)
    requires IsHeader(h) && h <= s
    ensures s[0] == h[0] && Readable(s, 0) && TotalAt(s, 0) == TotalAt(h, 0) && RawSize(s, 0) == RawSize(h, 0)
    ensures Unwrapped(s, 0) <==> Unwrapped(h, 0)
  {
    assert forall i :: 0 <= i < |h| ==> s[i] == s[..|h|][i] == h[i];
  }

  /** The bytes of a narrowed value. */
  lemma NarrowedBytes(hi: byte, lo: byte)
    requires Load16(hi, lo) + 269 >= 0x1_0000
    ensures var n := Wrap16(Load16(hi, lo) + 269);
            if n < 13 then hi == 0xFE && lo == 0xF3 + n else n < 269 && hi == 0xFF && lo == n - 13
  {
    var n := Load16(hi, lo) + 269 - 0x1_0000;
    assert Wrap16(Load16(hi, lo) + 269) == n;
  }

  lemma SmallerStep(h: seq<byte>)
    requires IsHeader(h) && !Unwrapped(h, 0)
    ensures 1 <= TotalAt(h, 0) < RawSize(h, 0)
  {}

  /** A step that leaves the header behind: the PDU that ends there is accepted without its value. */
  lemma CutShort(h: seq<byte>) returns (s: seq<byte>, len: nat)
    requires IsHeader(h) && !Unwrapped(h, 0) && 1 + Ext(Upper(h[0])) + Ext(Lower(h[0])) <= TotalAt(h, 0)
    ensures Follows(h, s, len) && !JudgedRight(s, len)
  {
    hide NoWrap, TotalAt, RawSize, Readable, Unwrapped, DeltaNeeds, LengthNeeds;
    SmallerStep(h);
    len := TotalAt(h, 0);
    s := h + seq(len + 2, _ => 0);
    SameHeader(h, s);
    assert Scan(s, len, len, 1) == Accept(1, 0);
  }

  /** The byte that is taken for the next header when the step ends inside the header. */
  lemma StepInside(h: seq<byte>)
    requires IsHeader(h) && !Unwrapped(h, 0) && TotalAt(h, 0) < 1 + Ext(Upper(h[0])) + Ext(Lower(h[0]))
    ensures TotalAt(h, 0) < |h|
    ensures var b := h[TotalAt(h, 0)];
            || (b == PAYLOAD_MARKER && RawSize(h, 0) > 5) || Upper(b) == 15 || Lower(b) == 15
            || (TotalAt(h, 0) == 2 && |h| == 5 && h[3] == 0xFE && h[4] == 0xF3)
  {
    var q := 1 + DeltaNeeds(h[0]);
    if RawDelta(h, 0) >= 0x1_0000 {
      NarrowedBytes(h[1], h[2]);
    }
    if RawLength(h, 0) >= 0x1_0000 {
      NarrowedBytes(h[q], h[q + 1]);
    }
  }

  /** The step ends on a marker: a short PDU is accepted with what follows as payload. */
  lemma TakenForMarker(h: seq<byte>) returns (s: seq<byte>, len: nat)
    requires IsHeader(h) && !Unwrapped(h, 0) && TotalAt(h, 0) < 3 && TotalAt(h, 0) < |h|
    requires h[TotalAt(h, 0)] == PAYLOAD_MARKER && RawSize(h, 0) > 5
    ensures Follows(h, s, len) && !JudgedRight(s, len)
  {
    hide NoWrap, TotalAt, RawSize, Readable, Unwrapped, DeltaNeeds, LengthNeeds;
    SmallerStep(h);
    var t := TotalAt(h, 0);
    len := t + 2;
    s := h + seq(len + 2, _ => 0);
    SameHeader(h, s);
    assert s[t] == PAYLOAD_MARKER;
    assert Scan(s, len, t, 1) == Accept(1, 1);
  }

  /** A value of reserved bytes: the option is complete, and rejected when the step ends at a byte that is no header. */
  lemma TakenForHeader(h: seq<byte>) returns (s: seq<byte>, len: nat)
    requires IsHeader(h) && !Unwrapped(h, 0) && TotalAt(h, 0) < 3 && TotalAt(h, 0) < |h|
    requires var b := h[TotalAt(h, 0)];
             && b != PAYLOAD_MARKER
             && (Upper(b) == 15 || Lower(b) == 15
                 || (TotalAt(h, 0) == 2 && |h| == 5 && h[3] == 0xFE && h[4] == 0xF3 && RawSize(h, 0) == 0x1_0005))
    ensures Follows(h, s, len) && !JudgedRight(s, len)
  {
    hide NoWrap, TotalAt, RawSize, Readable, Unwrapped, DeltaNeeds, LengthNeeds;
    SmallerStep(h);
    var t := TotalAt(h, 0);
    len := RawSize(h, 0);
    s := h + seq(len + 2, _ => 0xF0);
    SameHeader(h, s);
    assert s[t] == h[t];
    assert NoWrap(s, len, len) by {
      NothingLeft(s, len);
    }
    if !(Upper(h[t]) == 15 || Lower(h[t]) == 15) {
      SecondHeader(s, len);
    }
    assert Scan(s, len, t, 1) == Reject;
    CompleteOption(s, len);
  }

  lemma NothingLeft(s: seq<byte>, len: nat)
    requires len + 2 <= |s|
    ensures NoWrap(s, len, len)
  {}

  lemma CompleteOption(s: seq<byte>, len: nat)
    requires 0 < len <= |s| && Readable(s, 0) && Upper(s[0]) != 15 && Lower(s[0]) != 15 && len == RawSize(s, 0)
    ensures WellFormed(s, len, 0)
  {
    assert WellFormed(s, len, len);
  }

  /** Behind two narrowed values any byte can come up as a header; its values end in the reserved bytes. */
  lemma SecondHeader(s: seq<byte>, len: nat)
    requires len == 0x1_0005 && len + 2 <= |s| && Upper(s[2]) != 15 && Lower(s[2]) != 15
    requires s[3] == 0xFE && s[4] == 0xF3 && forall i :: 5 <= i < |s| ==> s[i] == 0xF0
    ensures Scan(s, len, 2, 1) == Reject
  {
    var next := 2 + TotalAt(s, 2);
    LandsReserved(s);
    assert Scan(s, len, next, 2) == Reject;
  }

  lemma LandsReserved(s: seq<byte>)
    requires |s| > 0x1_0005 && Upper(s[2]) != 15 && Lower(s[2]) != 15
    requires s[3] == 0xFE && s[4] == 0xF3 && forall i :: 5 <= i < |s| ==> s[i] == 0xF0
    ensures var next := 2 + TotalAt(s, 2); next < 0x1_0005 && Upper(s[next]) == 15 && s[next] != PAYLOAD_MARKER
  {
    assert DeltaAt(s, 2) <= 267 && LengthAt(s, 2) <= 62717;
  }

  /** An option is judged right behind every header exactly when neither of its values is narrowed. */
  lemma JudgedRightIffUnwrapped(h: seq<byte>)
    requires IsHeader(h)
    ensures Unwrapped(h, 0) <==> forall s, len :: Follows(h, s, len) ==> JudgedRight(s, len)
  {
    hide Scan, WellFormed, Readable, DeltaNeeds, LengthNeeds;
    if Unwrapped(h, 0) {
      forall s, len | Follows(h, s, len)
        ensures JudgedRight(s, len)
      {
        SameHeader(h, s);
        TotalIsGrammarSizeIffUnwrapped(h, 0);
        assert NoWrap(s, len, 0);
        ScanDecidesGrammar(s, len, 0, 0);
      }
    } else {
      var s, len := Misjudged(h);
    }
  }

  lemma Misjudged(h: seq<byte>) returns (s: seq<byte>, len: nat)
    requires IsHeader(h) && !Unwrapped(h, 0)
    ensures Follows(h, s, len) && !JudgedRight(s, len)
  {
    if 1 + Ext(Upper(h[0])) + Ext(Lower(h[0])) <= TotalAt(h, 0) {
      s, len := CutShort(h);
    } else {
      StepInside(h);
      if h[TotalAt(h, 0)] == PAYLOAD_MARKER {
        s, len := TakenForMarker(h);
      } else {
        s, len := TakenForHeader(h);
      }
    }
  }
}
