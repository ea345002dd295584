/** Options with absolute numbers, and what `addOption` does to the delta-encoded records.
    The reference is `Insert`: put the new option behind every option with a number not above its own. */
module OptionList {
  import opened Bytes
  import opened OptionCodec

  datatype CoapOption = Opt(number: uint16, value: OptionValue)

  /** The options that records denote, numbered as `getOptions` does with a 16-bit running sum. */
  function Options(prev: uint16, recs: seq<Record>): (opts: seq<CoapOption>)
    ensures |opts| == |recs|
    decreases recs
  {
    if recs == [] then [] else
      var n := Wrap16(prev + recs[0].delta);
      [Opt(n, recs[0].value)] + Options(n, recs[1..])
  }

  /** The running option number behind the last record, unbounded. */
  function Last(prev: nat, recs: seq<Record>): (last: nat)
    ensures prev <= last
    decreases recs
  {
    if recs == [] then prev else Last(prev + recs[0].delta, recs[1..])
  }

  /** The running number fits its 16 bits throughout. */
  predicate Numbered(recs: seq<Record>) { Last(0, recs) < 0x1_0000 }

  function Insert(opts: seq<CoapOption>, o: CoapOption): seq<CoapOption> {
    if opts == [] || o.number < opts[0].number then [o] + opts else [opts[0]] + Insert(opts[1..], o)
  }

  predicate Sorted(opts: seq<CoapOption>) {
    forall i, j :: 0 <= i < j < |opts| ==> opts[i].number <= opts[j].number
  }

  // Records

  /** Room for the insertion: the following option's delta shrinks, by no more than the new option brings. */
  lemma RoomForInsertion(prev: nat, n: nat, next: nat)
    requires prev <= n < next < 0x1_0000
    ensures Ext(next - n) <= Ext(next - prev) <= 1 + Ext(n - prev) + Ext(next - n)
  {}

  lemma {:induction false} LastConcat(prev: nat, a: seq<Record>, b: seq<Record>)
    ensures Last(prev, a + b) == Last(Last(prev, a), b)
    decreases a
  {
    if a == [] {
      assert a + b == b;
    } else {
      assert (a + b)[1..] == a[1..] + b;
      LastConcat(prev + a[0].delta, a[1..], b);
    }
  }

  lemma LastOne(prev: nat, r: Record)
    ensures Last(prev, [r]) == prev + r.delta
  {}

  lemma LastSplit(recs: seq<Record>, i: nat)
    requires i < |recs|
    ensures Last(0, recs[..i + 1]) == Last(0, recs[..i]) + recs[i].delta <= Last(0, recs)
  {
    var a, r, c := recs[..i], recs[i], recs[i + 1..];
    hide Last;
    assert recs[..i + 1] == a + [r];
    assert recs == (a + [r]) + c;
    LastConcat(0, a, [r]);
    LastConcat(0, a + [r], c);
    LastOne(Last(0, a), r);
  }

  lemma {:induction false} OptionsConcat(prev: uint16, a: seq<Record>, b: seq<Record>)
    requires Last(prev, a) < 0x1_0000
    ensures Options(prev, a + b) == Options(prev, a) + Options(Last(prev, a), b)
    decreases a
  {
    if a == [] {
      assert a + b == b;
    } else {
      assert (a + b)[1..] == a[1..] + b;
      OptionsConcat(prev + a[0].delta, a[1..], b);
    }
  }

  /** Records are determined by the options they denote. */
  lemma {:induction false} OptionsInjective(prev: uint16, a: seq<Record>, b: seq<Record>)
    requires Options(prev, a) == Options(prev, b)
    ensures a == b
    decreases a
  {
    if a != [] {
      assert Options(prev, a)[0] == Options(prev, b)[0];
      var n := Wrap16(prev + a[0].delta);
      assert Options(n, a[1..]) == Options(prev, a)[1..] == Options(prev, b)[1..];
      OptionsInjective(n, a[1..], b[1..]);
    }
  }

  /** Insertion into the delta encoding: the record behind the new one is re-based on it. */
  function InsertRecord(prev: nat, recs: seq<Record>, n: uint16, v: OptionValue): seq<Record>
    requires prev <= n
    decreases recs
  {
    if recs == [] then [Record(n - prev, v)]
    else if n < prev + recs[0].delta then
      [Record(n - prev, v), Record(prev + recs[0].delta - n, recs[0].value)] + recs[1..]
    else [recs[0]] + InsertRecord(prev + recs[0].delta, recs[1..], n, v)
  }

  /** Records whose running number does not exceed n stay in front of the insertion. */
  lemma {:induction false} InsertRecordSkips(prev: nat, a: seq<Record>, b: seq<Record>, n: uint16, v: OptionValue)
    requires Last(prev, a) <= n
    ensures InsertRecord(prev, a + b, n, v) == a + InsertRecord(Last(prev, a), b, n, v)
    decreases a
  {
    if a == [] {
      assert a + b == b;
    } else {
      var q, t := prev + a[0].delta, a[1..] + b;
      assert a + b == [a[0]] + t && (a + b)[1..] == t;
      assert q <= Last(q, a[1..]) <= n;
      InsertRecordSkips(q, a[1..], b, n, v);
      var rest := InsertRecord(Last(q, a[1..]), b, n, v);
      assert InsertRecord(prev, a + b, n, v) == [a[0]] + (a[1..] + rest);
      assert [a[0]] + (a[1..] + rest) == a + rest;
    }
  }

  /** InsertRecord by index, as the array code finds it. */
  lemma InsertRecordAt(recs: seq<Record>, n: uint16, v: OptionValue, i: nat)
    requires i <= |recs| && Last(0, recs[..i]) <= n
    requires i < |recs| ==> n < Last(0, recs[..i]) + recs[i].delta
    ensures InsertRecord(0, recs, n, v)
         == var p := Last(0, recs[..i]);
            recs[..i] + [Record(n - p, v)]
            + if i == |recs| then [] else [Record(p + recs[i].delta - n, recs[i].value)] + recs[i + 1..]
  {
    assert recs == recs[..i] + recs[i..];
    InsertRecordSkips(0, recs[..i], recs[i..], n, v);
    if i < |recs| {
      assert recs[i..][1..] == recs[i + 1..];
    }
  }

  lemma {:induction false} InsertRecordInserts(prev: uint16, recs: seq<Record>, n: uint16, v: OptionValue)
    requires prev <= n && Last(prev, recs) < 0x1_0000
    ensures Options(prev, InsertRecord(prev, recs, n, v)) == Insert(Options(prev, recs), Opt(n, v))
    ensures Last(prev, InsertRecord(prev, recs, n, v)) == if Last(prev, recs) <= n then n else Last(prev, recs)
    decreases recs
  {
    if recs != [] {
      var next := prev + recs[0].delta;
      if n < next {
        InsertInFront(prev, recs, n, v);
      } else {
        var inner := InsertRecord(next, recs[1..], n, v);
        InsertRecordInserts(next, recs[1..], n, v);
        assert InsertRecord(prev, recs, n, v) == [recs[0]] + inner;
        hide InsertRecord;
        OptionsOfCons(prev, recs[0], inner);
      }
    }
  }

  lemma OptionsOfCons(prev: uint16, r: Record, rest: seq<Record>)
    ensures var n := Wrap16(prev + r.delta); Options(prev, [r] + rest) == [Opt(n, r.value)] + Options(n, rest)
    ensures Last(prev, [r] + rest) == Last(prev + r.delta, rest)
  {}

  /** The new record in front: the first of the others is re-based on it. */
  lemma InsertInFront(prev: uint16, recs: seq<Record>, n: uint16, v: OptionValue)
    requires recs != [] && prev <= n < prev + recs[0].delta && Last(prev, recs) < 0x1_0000
    ensures Options(prev, InsertRecord(prev, recs, n, v)) == Insert(Options(prev, recs), Opt(n, v))
    ensures Last(prev, InsertRecord(prev, recs, n, v)) == Last(prev, recs) > n
  {
    var next, r := prev + recs[0].delta, recs[0];
    var rebased := [Record(next - n, r.value)] + recs[1..];
    assert InsertRecord(prev, recs, n, v) == [Record(n - prev, v)] + rebased;
    assert ([Record(n - prev, v)] + rebased)[1..] == rebased && rebased[1..] == recs[1..];
    hide InsertRecord;
  }

  /** The records `addOption` leaves. `max` is `_maxAddedOptionNumber`: at or above it, or with no option yet,
      the new option is appended with a delta taken from `max`, in 16 bits. */
  function AddRecord(recs: seq<Record>, max: uint16, n: uint16, v: OptionValue): seq<Record> {
    if max <= n || recs == [] then recs + [Record(Wrap16(n - max), v)] else InsertRecord(0, recs, n, v)
  }

  lemma AddRecordAt(recs: seq<Record>, max: uint16, n: uint16, v: OptionValue, i: nat)
    requires i < |recs| && n < max && Last(0, recs[..i]) <= n < Last(0, recs[..i]) + recs[i].delta < 0x1_0000
    ensures AddRecord(recs, max, n, v)
         == var p := Last(0, recs[..i]);
            recs[..i] + [Record(n - p, v), Record(p + recs[i].delta - n, recs[i].value)] + recs[i + 1..]
  {
    hide Last, InsertRecord;
    InsertRecordAt(recs, n, v, i);
    TwoThenRest(recs[..i], Record(n - Last(0, recs[..i]), v),
                Record(Last(0, recs[..i]) + recs[i].delta - n, recs[i].value), recs[i + 1..]);
  }

  lemma TwoThenRest(a: seq<Record>, x: Record, y: Record, b: seq<Record>)
    ensures a + [x] + ([y] + b) == a + [x, y] + b
  {}

  /** `_maxAddedOptionNumber` afterwards: overwritten whenever the new option lands at the end. */
  function NextMax(recs: seq<Record>, max: uint16, n: uint16): uint16 {
    if max <= n || recs == [] || Last(0, recs) <= n then n else max
  }

  lemma MaxMovesOn(recs: seq<Record>, max: uint16, n: uint16)
    requires max <= n
    ensures NextMax(recs, max, n) == n
  {}

  /** What makes `addOption` right: `max` is the number of the last option, or it is not consulted. */
  predicate Tracked(recs: seq<Record>, max: uint16, n: uint16) {
    max == Last(0, recs) || (recs != [] && n < max)
  }

  /** `addOption` is insertion exactly when `max` is tracked. */
  lemma AddRecordInsertsIffTracked(recs: seq<Record>, max: uint16, n: uint16, v: OptionValue)
    requires Numbered(recs)
    ensures Options(0, AddRecord(recs, max, n, v)) == Insert(Options(0, recs), Opt(n, v)) <==> Tracked(recs, max, n)
  {
    var opts, last := Options(0, recs), Last(0, recs);
    if max <= n || recs == [] {
      var r := Record(Wrap16(n - max), v);
      OptionsConcat(0, recs, [r]);
      var m := Wrap16(last + r.delta);
      assert Options(last, [r]) == [Opt(m, v)];
      assert m == n <==> max == last;
      if max == last {
        InsertLast(recs, n, v);
      } else {
        AppendedOther(opts, Opt(n, v), Opt(m, v));
      }
    } else {
      InsertRecordInserts(0, recs, n, v);
    }
  }

  /** Appending one option is not inserting another. */
  lemma AppendedOther(opts: seq<CoapOption>, o: CoapOption, other: CoapOption)
    requires o != other
    ensures opts + [other] != Insert(opts, o)
  {
    hide Insert;
    InsertElements(opts, o);
    assert multiset(opts + [other])[o] == multiset(opts)[o];
  }

  /** An option numbered no lower than the last goes to the end. */
  lemma InsertLast(recs: seq<Record>, n: uint16, v: OptionValue)
    requires Last(0, recs) <= n
    ensures Insert(Options(0, recs), Opt(n, v)) == Options(0, recs) + [Opt(n, v)]
    ensures InsertRecord(0, recs, n, v) == recs + [Record(n - Last(0, recs), v)]
  {
    assert recs[..|recs|] == recs;
    InsertRecordAt(recs, n, v, |recs|);
    var r := Record(n - Last(0, recs), v);
    assert InsertRecord(0, recs, n, v) == recs + [r];
    InsertRecordInserts(0, recs, n, v);
    OptionsConcat(0, recs, [r]);
    assert Options(Last(0, recs), [r]) == [Opt(n, v)];
  }

  /** Tracking is kept: afterwards `max` is again the last number. */
  lemma AddRecordKeepsMax(recs: seq<Record>, n: uint16, v: OptionValue)
    requires Numbered(recs)
    ensures var max := Last(0, recs);
            Last(0, AddRecord(recs, max, n, v)) == NextMax(recs, max, n) && Numbered(AddRecord(recs, max, n, v))
  {
    InsertRecordInserts(0, recs, n, v);
    if Last(0, recs) <= n {
      InsertLast(recs, n, v);
    }
  }

  // Sorting

  /** The options numbered n, in order. */
  function WithNumber(opts: seq<CoapOption>, n: uint16): seq<CoapOption> {
    if opts == [] then []
    else (if opts[0].number == n then [opts[0]] else []) + WithNumber(opts[1..], n)
  }

  ghost predicate SameOrderWithinNumbers(a: seq<CoapOption>, b: seq<CoapOption>) {
    forall n: uint16 :: WithNumber(a, n) == WithNumber(b, n)
  }

  /** Sorted by number, and within each number in the order of the calls. */
  ghost predicate StableSortOf(opts: seq<CoapOption>, calls: seq<CoapOption>) {
    Sorted(opts) && SameOrderWithinNumbers(opts, calls)
  }

  lemma {:induction false} InsertElements(opts: seq<CoapOption>, o: CoapOption)
    ensures multiset(Insert(opts, o)) == multiset(opts) + multiset{o}
  {
    if opts != [] && opts[0].number <= o.number {
      InsertElements(opts[1..], o);
      assert opts == [opts[0]] + opts[1..];
    }
  }

  lemma {:induction false} InsertSorts(opts: seq<CoapOption>, o: CoapOption)
    requires Sorted(opts)
    ensures Sorted(Insert(opts, o))
  {
    if opts != [] && opts[0].number <= o.number {
      InsertSorts(opts[1..], o);
      var rest := Insert(opts[1..], o);
      InsertElements(opts[1..], o);
      forall k | 0 <= k < |rest|
        ensures opts[0].number <= rest[k].number
      {
        assert rest[k] in multiset(rest);
        assert rest[k] == o || rest[k] in opts[1..];
      }
    }
  }

  lemma {:induction false} NoneNumbered(opts: seq<CoapOption>, n: uint16)
    requires forall o :: o in opts ==> o.number != n
    ensures WithNumber(opts, n) == []
  {
    if opts != [] {
      NoneNumbered(opts[1..], n);
    }
  }

  /** Insertion appends to the options of its own number and leaves those of every other number alone. */
  lemma {:induction false} InsertStable(opts: seq<CoapOption>, o: CoapOption, n: uint16)
    requires Sorted(opts)
    ensures WithNumber(Insert(opts, o), n) == WithNumber(opts, n) + if o.number == n then [o] else []
  {
    if opts == [] || o.number < opts[0].number {
      assert Insert(opts, o)[1..] == opts;
      if o.number == n {
        NoneNumbered(opts, n);
      }
    } else {
      InsertStable(opts[1..], o, n);
      assert Insert(opts, o)[1..] == Insert(opts[1..], o);
    }
  }

  lemma {:induction false} HeadOfNumber(opts: seq<CoapOption>, other: seq<CoapOption>)
    requires opts != [] && Sorted(opts) && Sorted(other)
    requires SameOrderWithinNumbers(opts, other)
    ensures other != [] && opts[0].number >= other[0].number
  {
    var n := opts[0].number;
    assert WithNumber(opts, n)[0] == opts[0];
    if other == [] || n < other[0].number {
      NoneNumbered(other, n);
    }
  }

  /** There is only one stable sort. */
  lemma {:induction false} StableSortUnique(a: seq<CoapOption>, b: seq<CoapOption>)
    requires Sorted(a) && Sorted(b)
    requires SameOrderWithinNumbers(a, b)
    ensures a == b
  {
    if a != [] {
      HeadOfNumber(a, b);
    }
    if b != [] {
      HeadOfNumber(b, a);
      var m := a[0].number;
      assert a[0] == WithNumber(a, m)[0] == WithNumber(b, m)[0] == b[0];
      forall n: uint16
        ensures WithNumber(a[1..], n) == WithNumber(b[1..], n)
      {
        var k := if n == m then 1 else 0;
        assert WithNumber(a[1..], n) == WithNumber(a, n)[k..];
        assert WithNumber(b[1..], n) == WithNumber(b, n)[k..];
      }
      StableSortUnique(a[1..], b[1..]);
    }
  }

  lemma {:induction false} OptionsSorted(prev: uint16, recs: seq<Record>)
    requires Last(prev, recs) < 0x1_0000
    ensures Sorted(Options(prev, recs))
    ensures forall o :: o in Options(prev, recs) ==> prev <= o.number
    decreases recs
  {
    if recs != [] {
      OptionsSorted(prev + recs[0].delta, recs[1..]);
    }
  }

  // Runs

  /** A run of successful calls of `addOption`, from the given records and `_maxAddedOptionNumber`. */
  function AddAll(recs: seq<Record>, max: uint16, calls: seq<CoapOption>): (seq<Record>, uint16)
    decreases calls
  {
    if calls == [] then (recs, max) else
      var o := calls[0];
      AddAll(AddRecord(recs, max, o.number, o.value), NextMax(recs, max, o.number), calls[1..])
  }

  /** A run with one more call. */
  lemma {:induction false} AddAllSnoc(recs: seq<Record>, max: uint16, calls: seq<CoapOption>, o: CoapOption)
    ensures var (res, m) := AddAll(recs, max, calls);
            AddAll(recs, max, calls + [o]) == (AddRecord(res, m, o.number, o.value), NextMax(res, m, o.number))
    decreases calls
  {
    if calls == [] {
      assert calls + [o] == [o] && [o][1..] == [];
    } else {
      var c := calls[0];
      assert (calls + [o])[1..] == calls[1..] + [o];
      AddAllSnoc(AddRecord(recs, max, c.number, c.value), NextMax(recs, max, c.number), calls[1..], o);
    }
  }

  lemma {:induction false} AddAllSorts(recs: seq<Record>, calls: seq<CoapOption>, n: uint16)
    requires Numbered(recs)
    ensures var (res, max) := AddAll(recs, Last(0, recs), calls);
            && Numbered(res) && max == Last(0, res)
            && WithNumber(Options(0, res), n) == WithNumber(Options(0, recs), n) + WithNumber(calls, n)
    decreases calls
  {
    hide AddRecord, NextMax, Options, Last;
    if calls == [] {
      assert WithNumber(Options(0, recs), n) + [] == WithNumber(Options(0, recs), n);
    } else {
      var o := calls[0];
      var next := AddRecord(recs, Last(0, recs), o.number, o.value);
      AddOneSorts(recs, o, n);
      AddAllSorts(next, calls[1..], n);
      assert AddAll(recs, Last(0, recs), calls) == AddAll(next, Last(0, next), calls[1..]);
      var head := if o.number == n then [o] else [];
      assert WithNumber(calls, n) == head + WithNumber(calls[1..], n);
      var before := WithNumber(Options(0, recs), n);
      assert (before + head) + WithNumber(calls[1..], n) == before + (head + WithNumber(calls[1..], n));
    }
  }

  lemma AddOneSorts(recs: seq<Record>, o: CoapOption, n: uint16)
    requires Numbered(recs)
    ensures var next := AddRecord(recs, Last(0, recs), o.number, o.value);
            && Numbered(next) && NextMax(recs, Last(0, recs), o.number) == Last(0, next)
            && WithNumber(Options(0, next), n) == WithNumber(Options(0, recs), n) + if o.number == n then [o] else []
  {
    AddRecordInsertsIffTracked(recs, Last(0, recs), o.number, o.value);
    AddRecordKeepsMax(recs, o.number, o.value);
    OptionsSorted(0, recs);
    InsertStable(Options(0, recs), o, n);
  }

  /** Whatever the order of the calls, the PDU holds their stable sort, and `max` is its last number. */
  lemma RunIsStableSort(calls: seq<CoapOption>)
    ensures var (res, max) := AddAll([], 0, calls);
            Numbered(res) && max == Last(0, res) && StableSortOf(Options(0, res), calls)
  {
    forall n: uint16
      ensures WithNumber(Options(0, AddAll([], 0, calls).0), n) == WithNumber(calls, n)
    {
      AddAllSorts([], calls, n);
    }
    AddAllSorts([], calls, 0);
    OptionsSorted(0, AddAll([], 0, calls).0);
  }

  /** Two runs leave the same records exactly when they make the calls of each number in the same order. */
  lemma RunsAgreeIff(calls: seq<CoapOption>, others: seq<CoapOption>)
    ensures AddAll([], 0, calls).0 == AddAll([], 0, others).0 <==> SameOrderWithinNumbers(calls, others)
  {
    var a, b := AddAll([], 0, calls).0, AddAll([], 0, others).0;
    RunIsStableSort(calls);
    RunIsStableSort(others);
    if SameOrderWithinNumbers(calls, others) {
      StableSortUnique(Options(0, a), Options(0, b));
      OptionsInjective(0, a, b);
    } else {
      var n: uint16 :| WithNumber(calls, n) != WithNumber(others, n);
      assert WithNumber(Options(0, a), n) != WithNumber(Options(0, b), n);
    }
  }

  /** Every call adds one record. */
  lemma {:induction false} AddAllCounts(recs: seq<Record>, max: uint16, calls: seq<CoapOption>)
    ensures |AddAll(recs, max, calls).0| == |recs| + |calls|
    decreases calls
  {
    if calls != [] {
      var o := calls[0];
      if !(max <= o.number || recs == []) {
        InsertRecordCounts(0, recs, o.number, o.value);
      }
      AddAllCounts(AddRecord(recs, max, o.number, o.value), NextMax(recs, max, o.number), calls[1..]);
    }
  }

  lemma {:induction false} InsertRecordCounts(prev: nat, recs: seq<Record>, n: uint16, v: OptionValue)
    requires prev <= n
    ensures |InsertRecord(prev, recs, n, v)| == |recs| + 1
    decreases recs
  {
    if recs != [] && prev + recs[0].delta <= n {
      InsertRecordCounts(prev + recs[0].delta, recs[1..], n, v);
    }
  }

  /** An insertion never makes the encoding shorter. */
  lemma {:induction false} InsertRecordGrows(prev: nat, recs: seq<Record>, n: uint16, v: OptionValue)
    requires prev <= n && Last(prev, recs) < 0x1_0000
    ensures |Encode(InsertRecord(prev, recs, n, v))| >= |Encode(recs)|
    decreases recs
  {
    if recs != [] {
      var r, next := recs[0], prev + recs[0].delta;
      var res := InsertRecord(prev, recs, n, v);
      RecordSize(r.delta, r.value);
      if n < next {
        RoomForInsertion(prev, n, next);
        RecordSize(n - prev, v);
        RecordSize(next - n, r.value);
        hide EncodeRecord;
        var rebased := Record(next - n, r.value);
        assert res[1..] == [rebased] + recs[1..] && res[1..][1..] == recs[1..];
      } else {
        hide EncodeRecord;
        InsertRecordGrows(next, recs[1..], n, v);
        assert res[1..] == InsertRecord(next, recs[1..], n, v);
      }
    }
  }

  lemma AddRecordGrows(recs: seq<Record>, n: uint16, v: OptionValue)
    requires Numbered(recs)
    ensures |Encode(AddRecord(recs, Last(0, recs), n, v))| >= |Encode(recs)|
  {
    hide Encode, InsertRecord;
    if Last(0, recs) <= n || recs == [] {
      EncodeConcat(recs, [Record(Wrap16(n - Last(0, recs)), v)]);
    } else {
      InsertRecordGrows(0, recs, n, v);
    }
  }

  /** So does no run. */
  lemma {:induction false} AddAllGrows(recs: seq<Record>, calls: seq<CoapOption>)
    requires Numbered(recs)
    ensures |Encode(AddAll(recs, Last(0, recs), calls).0)| >= |Encode(recs)|
    decreases calls
  {
    hide Encode, AddRecord, NextMax;
    if calls != [] {
      var o := calls[0];
      AddRecordGrows(recs, o.number, o.value);
      AddRecordKeepsMax(recs, o.number, o.value);
      AddAllGrows(AddRecord(recs, Last(0, recs), o.number, o.value), calls[1..]);
    }
  }

  /** A run, and then the rest of it. */
  lemma {:induction false} AddAllConcat(recs: seq<Record>, max: uint16, a: seq<CoapOption>, b: seq<CoapOption>)
    ensures var (res, m) := AddAll(recs, max, a); AddAll(recs, max, a + b) == AddAll(res, m, b)
    decreases a
  {
    hide AddRecord, NextMax;
    if a == [] {
      assert a + b == b;
    } else {
      var o := a[0];
      assert (a + b)[1..] == a[1..] + b;
      AddAllConcat(AddRecord(recs, max, o.number, o.value), NextMax(recs, max, o.number), a[1..], b);
    }
  }

  /** The first calls of a run leave no longer encoding than more of them. */
  lemma PrefixIsShorter(recs: seq<Record>, calls: seq<CoapOption>, i: nat, k: nat)
    requires i <= k <= |calls| && Numbered(recs)
    ensures |Encode(AddAll(recs, Last(0, recs), calls[..i]).0)| <= |Encode(AddAll(recs, Last(0, recs), calls[..k]).0)|
  {
    hide Encode, AddAll;
    var max := Last(0, recs);
    AddAllSorts(recs, calls[..i], 0);
    AddAllConcat(recs, max, calls[..i], calls[i..k]);
    assert calls[..i] + calls[i..k] == calls[..k];
    AddAllGrows(AddAll(recs, max, calls[..i]).0, calls[i..k]);
  }

  /** n is the number of the first calls of a run whose result takes no more than this room. */
  predicate LongestFitting(recs: seq<Record>, calls: seq<CoapOption>, n: nat, room: int)
    requires Numbered(recs)
  {
    forall k :: 0 <= k <= |calls| ==>
      (k <= n <==> |Encode(AddAll(recs, Last(0, recs), calls[..k]).0)| <= room)
  }

  lemma FittingIsLongest(recs: seq<Record>, calls: seq<CoapOption>, n: nat, room: int)
    requires Numbered(recs) && n <= |calls|
    requires |Encode(AddAll(recs, Last(0, recs), calls[..n]).0)| <= room
    requires n < |calls| ==> |Encode(AddAll(recs, Last(0, recs), calls[..n + 1]).0)| > room
    ensures LongestFitting(recs, calls, n, room)
  {
    hide Encode, AddAll, Last;
    forall k | 0 <= k <= |calls|
      ensures k <= n <==> |Encode(AddAll(recs, Last(0, recs), calls[..k]).0)| <= room
    {
      if k <= n {
        PrefixIsShorter(recs, calls, k, n);
      } else {
        PrefixIsShorter(recs, calls, n + 1, k);
      }
    }
  }

  // Sizes do not depend on the contents of values

  predicate SameShape(a: seq<Record>, b: seq<Record>) {
    && |a| == |b|
    && forall k :: 0 <= k < |a| ==> a[k].delta == b[k].delta && |a[k].value| == |b[k].value|
  }

  predicate SameCallShape(a: seq<CoapOption>, b: seq<CoapOption>) {
    && |a| == |b|
    && forall k :: 0 <= k < |a| ==> a[k].number == b[k].number && |a[k].value| == |b[k].value|
  }

  lemma {:induction false} SameShapeSameSize(prev: nat, a: seq<Record>, b: seq<Record>)
    requires SameShape(a, b)
    ensures |Encode(a)| == |Encode(b)| && Last(prev, a) == Last(prev, b)
    decreases a
  {
    if a != [] {
      RecordSize(a[0].delta, a[0].value);
      RecordSize(b[0].delta, b[0].value);
      hide EncodeRecord, Header, Ext;
      SameShapeSameSize(prev + a[0].delta, a[1..], b[1..]);
    }
  }

  lemma {:induction false} InsertRecordShape(prev: nat, a: seq<Record>, b: seq<Record>, n: uint16, v: OptionValue,
                                             w: OptionValue)
    requires SameShape(a, b) && prev <= n && |v| == |w|
    ensures SameShape(InsertRecord(prev, a, n, v), InsertRecord(prev, b, n, w))
    decreases a
  {
    if a != [] && prev + a[0].delta <= n {
      InsertRecordShape(prev + a[0].delta, a[1..], b[1..], n, v, w);
    }
  }

  lemma AddRecordShape(a: seq<Record>, b: seq<Record>, max: uint16, n: uint16, v: OptionValue, w: OptionValue)
    requires SameShape(a, b) && |v| == |w|
    ensures SameShape(AddRecord(a, max, n, v), AddRecord(b, max, n, w)) && NextMax(a, max, n) == NextMax(b, max, n)
  {
    hide InsertRecord, Last;
    SameShapeSameSize(0, a, b);
    InsertRecordShape(0, a, b, n, v, w);
  }

  lemma {:induction false} AddAllShape(a: seq<Record>, b: seq<Record>, max: uint16, x: seq<CoapOption>,
                                       y: seq<CoapOption>)
    requires SameShape(a, b) && SameCallShape(x, y)
    ensures |Encode(AddAll(a, max, x).0)| == |Encode(AddAll(b, max, y).0)|
    decreases x
  {
    hide Encode, AddRecord, NextMax;
    if x == [] {
      SameShapeSameSize(0, a, b);
    } else {
      AddRecordShape(a, b, max, x[0].number, x[0].value, y[0].value);
      hide SameShape;
      AddAllShape(AddRecord(a, max, x[0].number, x[0].value), AddRecord(b, max, y[0].number, y[0].value),
                  NextMax(a, max, x[0].number), x[1..], y[1..]);
    }
  }

  predicate DistinctNumbers(opts: seq<CoapOption>) {
    forall i, j :: 0 <= i < j < |opts| ==> opts[i].number != opts[j].number
  }

  lemma {:induction false} OnlyOneNumbered(opts: seq<CoapOption>, o: CoapOption)
    requires DistinctNumbers(opts) && o in opts
    ensures WithNumber(opts, o.number) == [o]
  {
    if opts[0] == o {
      NoneNumbered(opts[1..], o.number);
    } else {
      OnlyOneNumbered(opts[1..], o);
    }
  }

  /** Options of distinct numbers can be added in any order: the bytes are the same. */
  lemma DistinctNumbersAnyOrder(calls: seq<CoapOption>, others: seq<CoapOption>)
    requires DistinctNumbers(calls) && DistinctNumbers(others) && multiset(calls) == multiset(others)
    ensures Encode(AddAll([], 0, calls).0) == Encode(AddAll([], 0, others).0)
  {
    assert forall o :: o in calls <==> o in multiset(calls);
    assert forall o :: o in others <==> o in multiset(others);
    forall n: uint16
      ensures WithNumber(calls, n) == WithNumber(others, n)
    {
      if o :| o in calls && o.number == n {
        OnlyOneNumbered(calls, o);
        OnlyOneNumbered(others, o);
      } else {
        NoneNumbered(calls, n);
        NoneNumbered(others, n);
      }
    }
    RunsAgreeIff(calls, others);
  }
}
