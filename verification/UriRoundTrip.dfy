/** `getURI` prints back what `setURI` was given: "/s1/../sk" with an optional "?q1&..&qm"
    (compare sections 6.4 and 6.5 of RFC 7252). */
module UriRoundTrip {
  import opened Bytes
  import opened OptionCodec
  import opened OptionList
  import opened CoapPdu
  import opened Uri

  function Paths(ps: seq<seq<byte>>): seq<byte> {
    if ps == [] then [] else [SLASH] + ps[0] + Paths(ps[1..])
  }

  function Queries(qs: seq<seq<byte>>, lead: byte): seq<byte> {
    if qs == [] then [] else [lead] + qs[0] + Queries(qs[1..], AMPERSAND)
  }

  function UriOf(ps: seq<seq<byte>>, qs: seq<seq<byte>>): seq<byte> { Paths(ps) + Queries(qs, QUESTION) }

  /** A part of a URI: not empty, no separator of either stage in a query, no '/' or '?' in a segment. */
  predicate Segment(p: seq<byte>) { p != [] && |p| < 0x1_0000 && SLASH !in p && QUESTION !in p }

  predicate Query(q: seq<byte>) { Segment(q) && AMPERSAND !in q }

  predicate Parts(ps: seq<seq<byte>>, qs: seq<seq<byte>>) {
    && (forall k :: 0 <= k < |ps| ==> Segment(ps[k]))
    && (forall k :: 0 <= k < |qs| ==> Query(qs[k]))
  }

  /** The queries `setURI` makes options of: it stops in front of a last single character. */
  function Kept(qs: seq<seq<byte>>): seq<seq<byte>> { if |qs| == 1 && |qs[0]| == 1 then [] else qs }

  function OptionsOf(n: uint16, parts: seq<seq<byte>>): (opts: seq<CoapOption>)
    requires forall k :: 0 <= k < |parts| ==> |parts[k]| < 0x1_0000
    ensures |opts| == |parts| && forall k :: 0 <= k < |opts| ==> opts[k] == Opt(n, parts[k])
  {
    if parts == [] then [] else [Opt(n, parts[0])] + OptionsOf(n, parts[1..])
  }

  // Splitting

  lemma FindAt(u: seq<byte>, i: nat, c: byte, j: nat)
    requires i <= j <= |u| && c !in u[i..j] && (j < |u| ==> u[j] == c)
    ensures Find(u, i, c) == j
  {}

  lemma {:induction false} NotInQueries(qs: seq<seq<byte>>, lead: byte, c: byte)
    requires forall k :: 0 <= k < |qs| ==> c !in qs[k]
    requires c != AMPERSAND && c != lead
    ensures c !in Queries(qs, lead)
  {
    if qs != [] {
      NotInQueries(qs[1..], AMPERSAND, c);
    }
  }

  lemma CallsTurn(u: seq<byte>, st: Splitter, o: CoapOption, next: Splitter)
    requires InTurn(u, st) && Part(u, st) == o && Next(u, st) == next
    ensures Calls(u, st) == [o] + Calls(u, next)
  {}

  lemma CallsDone(u: seq<byte>, st: Splitter)
    requires |u| < 0x1_0000 && !InTurn(u, st)
    ensures Calls(u, st) == []
  {}

  /** In the query stage, at a separator. */
  lemma {:induction false} SplitQueries(u: seq<byte>, i: nat, qs: seq<seq<byte>>)
    requires i <= |u| < 0x1_0000 && u[i..] == Queries(qs, AMPERSAND) && Parts([], qs)
    ensures Calls(u, Splitter(i, AMPERSAND, URI_QUERY)) == OptionsOf(URI_QUERY, qs)
    decreases qs
  {
    hide Calls, Find, Queries;
    QueriesHead(qs, AMPERSAND);
    var st := Splitter(i, AMPERSAND, URI_QUERY);
    if qs == [] {
      CallsDone(u, st);
    } else {
      var q, rest := qs[0], qs[1..];
      var j := i + 1 + |q|;
      assert u[i] == u[i..][0] == AMPERSAND && u[i + 1..] == u[i..][1..];
      QueryTurn(u, i + 1, q, rest);
      assert |u[i..]| > 1;
      CallsTurn(u, st, Opt(URI_QUERY, q), Splitter(j, AMPERSAND, URI_QUERY));
      SplitQueries(u, j, rest);
    }
  }

  /** Where the part that starts at j ends. */
  lemma QueryTurn(u: seq<byte>, j: nat, q: seq<byte>, rest: seq<seq<byte>>)
    requires j <= |u| && u[j..] == q + Queries(rest, AMPERSAND) && Query(q) && Parts([], rest)
    ensures Find(u, j, AMPERSAND) == j + |q| <= |u| && Find(u, j, QUESTION) == |u|
    ensures u[j..j + |q|] == q && u[j + |q|..] == Queries(rest, AMPERSAND)
  {
    var e := j + |q|;
    assert u[j..e] == u[j..][..|q|] == q;
    assert u[e..] == u[j..][|q|..] == Queries(rest, AMPERSAND);
    if rest != [] {
      assert u[e] == u[e..][0] == AMPERSAND;
    }
    FindAt(u, j, AMPERSAND, e);
    NotInQueries(rest, AMPERSAND, QUESTION);
    assert u[j..|u|] == u[j..];
    FindAt(u, j, QUESTION, |u|);
  }

  /** In the query stage, just behind the '?'. */
  lemma SplitFirstQuery(u: seq<byte>, i: nat, q: seq<byte>, rest: seq<seq<byte>>)
    requires i <= |u| < 0x1_0000 && Query(q) && Parts([], rest)
    requires u[i..] == q + Queries(rest, AMPERSAND)
    ensures Calls(u, Splitter(i, AMPERSAND, URI_QUERY)) == OptionsOf(URI_QUERY, Kept([q] + rest))
  {
    hide Calls, Find, Queries, OptionsOf, Parts;
    QueriesHead(rest, AMPERSAND);
    var st := Splitter(i, AMPERSAND, URI_QUERY);
    if rest == [] && |q| == 1 {
      assert |u[i..]| == 1;
      CallsDone(u, st);
      OptionsOfNone(URI_QUERY);
    } else {
      var e := i + |q|;
      assert u[i] == u[i..][0] == q[0] && |u[i..]| > 1;
      QueryTurn(u, i, q, rest);
      CallsTurn(u, st, Opt(URI_QUERY, q), Splitter(e, AMPERSAND, URI_QUERY));
      SplitQueries(u, e, rest);
      OptionsOfCons(URI_QUERY, q, rest);
    }
  }

  lemma OptionsOfNone(n: uint16)
    ensures OptionsOf(n, []) == []
  {}

  lemma OptionsOfCons(n: uint16, q: seq<byte>, rest: seq<seq<byte>>)
    requires |q| < 0x1_0000 && forall k :: 0 <= k < |rest| ==> |rest[k]| < 0x1_0000
    ensures forall k :: 0 <= k < |[q] + rest| ==> |([q] + rest)[k]| < 0x1_0000
    ensures OptionsOf(n, [q] + rest) == [Opt(n, q)] + OptionsOf(n, rest)
  {
    var all := [q] + rest;
    assert all[0] == q && forall k :: 1 <= k < |all| ==> all[k] == rest[k - 1];
    assert all[1..] == rest;
  }

  /** In the path stage. */
  lemma {:induction false} SplitPaths(u: seq<byte>, i: nat, ps: seq<seq<byte>>, qs: seq<seq<byte>>)
    requires ps != [] && i <= |u| < 0x1_0000 && Parts(ps, qs)
    requires u[i..] == Paths(ps) + Queries(qs, QUESTION)
    ensures Calls(u, Splitter(i, SLASH, URI_PATH)) == OptionsOf(URI_PATH, ps) + OptionsOf(URI_QUERY, Kept(qs))
    decreases ps
  {
    hide Find, Queries, Paths, Part, Next, Calls, InTurn, OptionsOf, Kept;
    PathsHead(ps, Queries(qs, QUESTION));
    var st := Splitter(i, SLASH, URI_PATH);
    var p, rest := ps[0], ps[1..];
    var e, o := i + 1 + |p|, Opt(URI_PATH, p);
    assert ps == [p] + rest;
    OptionsOfCons(URI_PATH, p, rest);
    if rest != [] {
      PathTurn(u, i, p, rest, qs);
      CallsTurn(u, st, o, Splitter(e, SLASH, URI_PATH));
      SplitPaths(u, e, rest, qs);
    } else {
      OptionsOfNone(URI_PATH);
      SplitLastSegment(u, i, p, qs);
    }
  }

  lemma SplitLastSegment(u: seq<byte>, i: nat, p: seq<byte>, qs: seq<seq<byte>>)
    requires i <= |u| < 0x1_0000 && u[i..] == [SLASH] + p + Queries(qs, QUESTION) && Segment(p) && Parts([], qs)
    ensures Calls(u, Splitter(i, SLASH, URI_PATH)) == [Opt(URI_PATH, p)] + OptionsOf(URI_QUERY, Kept(qs))
  {
    hide Find, Queries, Part, Next, Calls, InTurn;
    var st := Splitter(i, SLASH, URI_PATH);
    LastSegment(u, i, p, qs);
    CallsTurn(u, st, Opt(URI_PATH, p), Next(u, st));
    if qs == [] {
      CallsDone(u, Next(u, st));
    } else {
      assert qs == [qs[0]] + qs[1..];
      SplitFirstQuery(u, i + 1 + |p| + 1, qs[0], qs[1..]);
    }
  }

  lemma PathTurn(u: seq<byte>, i: nat, p: seq<byte>, rest: seq<seq<byte>>, qs: seq<seq<byte>>)
    requires i <= |u| < 0x1_0000 && rest != [] && Segment(p)
    requires u[i..] == [SLASH] + p + (Paths(rest) + Queries(qs, QUESTION))
    ensures var e, st := i + 1 + |p|, Splitter(i, SLASH, URI_PATH);
            && InTurn(u, st) && Part(u, st) == Opt(URI_PATH, p) && Next(u, st) == st.(startP := e)
            && e <= |u| && u[e..] == Paths(rest) + Queries(qs, QUESTION)
  {
    hide Find;
    var j, e := i + 1, i + 1 + |p|;
    var more := Paths(rest) + Queries(qs, QUESTION);
    SegmentAt(u, i, p, more);
    assert u[e] == u[e..][0] == SLASH;
    FindAt(u, j, SLASH, e);
  }

  lemma PathsHead(ps: seq<seq<byte>>, more: seq<byte>)
    requires ps != []
    ensures Paths(ps) + more == [SLASH] + ps[0] + (Paths(ps[1..]) + more)
    ensures |ps| == 1 ==> Paths(ps) + more == [SLASH] + ps[0] + more
  {
    assert ([SLASH] + ps[0] + Paths(ps[1..])) + more == [SLASH] + ps[0] + (Paths(ps[1..]) + more);
    if |ps| == 1 {
      assert Paths(ps[1..]) == [] && [] + more == more;
    }
  }

  lemma SegmentAt(u: seq<byte>, i: nat, p: seq<byte>, more: seq<byte>)
    requires i <= |u| && u[i..] == [SLASH] + p + more
    ensures var e := i + 1 + |p|;
            e <= |u| && u[i] == SLASH && u[i + 1..e] == p && u[e..] == more && u[i + 1..] == p + more
  {
    assert u[i] == u[i..][0];
    assert u[i + 1..] == u[i..][1..] == p + more;
    assert u[i + 1..i + 1 + |p|] == u[i + 1..][..|p|];
    assert u[i + 1 + |p|..] == u[i + 1..][|p|..];
  }

  lemma LastSegment(u: seq<byte>, i: nat, p: seq<byte>, qs: seq<seq<byte>>)
    requires i <= |u| < 0x1_0000 && u[i..] == [SLASH] + p + Queries(qs, QUESTION) && Segment(p) && Parts([], qs)
    ensures var e, st := i + 1 + |p|, Splitter(i, SLASH, URI_PATH);
            && InTurn(u, st) && Part(u, st) == Opt(URI_PATH, p) && e <= |u|
            && (qs == [] ==> !InTurn(u, Next(u, st)))
            && (qs != [] ==> Next(u, st) == Splitter(e + 1, AMPERSAND, URI_QUERY)
                             && e < |u| && u[e + 1..] == qs[0] + Queries(qs[1..], AMPERSAND))
  {
    hide Find, Queries;
    QueriesHead(qs, QUESTION);
    var j, e := i + 1, i + 1 + |p|;
    var more := Queries(qs, QUESTION);
    NotInQueries(qs, QUESTION, SLASH);
    SegmentAt(u, i, p, more);
    FindNone(u, j, SLASH, p, more);
    if qs != [] {
      assert u[e] == u[e..][0] == QUESTION;
      assert u[e + 1..] == u[e..][1..];
    }
    FindAt(u, j, QUESTION, e);
  }

  lemma QueriesHead(qs: seq<seq<byte>>, lead: byte)
    ensures qs == [] ==> Queries(qs, lead) == []
    ensures qs != [] ==>
              var more := Queries(qs, lead);
              more != [] && more[0] == lead && more[1..] == qs[0] + Queries(qs[1..], AMPERSAND)
  {
    if qs != [] {
      assert Queries(qs, lead) == [lead] + (qs[0] + Queries(qs[1..], AMPERSAND));
    }
  }

  lemma FindNone(u: seq<byte>, j: nat, c: byte, p: seq<byte>, more: seq<byte>)
    requires j <= |u| && u[j..] == p + more && c !in p && c !in more
    ensures Find(u, j, c) == |u|
  {
    assert u[j..|u|] == u[j..];
    FindAt(u, j, c, |u|);
  }

  // The options in the message

  function UriOptions(opts: seq<CoapOption>): seq<CoapOption> {
    if opts == [] then []
    else (if IsUriNumber(opts[0].number) then [opts[0]] else []) + UriOptions(opts[1..])
  }

  /** In a sorted list all path options come in front of all query options. */
  lemma {:induction false} UriOptionsOfSorted(opts: seq<CoapOption>)
    requires Sorted(opts)
    ensures UriOptions(opts) == WithNumber(opts, URI_PATH) + WithNumber(opts, URI_QUERY)
  {
    if opts != [] {
      UriOptionsOfSorted(opts[1..]);
      if opts[0].number == URI_QUERY {
        NoneNumbered(opts[1..], URI_PATH);
      }
    }
  }

  lemma {:induction false} NoUriOptions(opts: seq<CoapOption>, n: uint16)
    requires UriOptions(opts) == [] && IsUriNumber(n)
    ensures WithNumber(opts, n) == []
  {
    if opts != [] {
      NoUriOptions(opts[1..], n);
    }
  }

  lemma {:induction false} WithNumberOfOptions(n: uint16, m: uint16, parts: seq<seq<byte>>, rest: seq<CoapOption>)
    requires forall k :: 0 <= k < |parts| ==> |parts[k]| < 0x1_0000
    ensures WithNumber(OptionsOf(n, parts) + rest, m)
         == (if n == m then OptionsOf(n, parts) else []) + WithNumber(rest, m)
    decreases parts
  {
    if parts == [] {
      assert [] + rest == rest;
    } else {
      var o, tail := Opt(n, parts[0]), OptionsOf(n, parts[1..]);
      assert OptionsOf(n, parts) + rest == [o] + (tail + rest);
      assert ([o] + (tail + rest))[1..] == tail + rest;
      WithNumberOfOptions(n, m, parts[1..], rest);
    }
  }

  /** After the calls the URI options of a message that had none are exactly those of the calls, in their order. */
  lemma UriOptionsAfter(recs: seq<Record>, ps: seq<seq<byte>>, qs: seq<seq<byte>>)
    requires Numbered(recs) && UriOptions(Options(0, recs)) == [] && Parts(ps, qs)
    ensures var calls := OptionsOf(URI_PATH, ps) + OptionsOf(URI_QUERY, qs);
            UriOptions(Options(0, AddAll(recs, Last(0, recs), calls).0)) == calls
  {
    hide AddAll, Options, Last, Sorted, UriOptions, WithNumber;
    var paths, queries := OptionsOf(URI_PATH, ps), OptionsOf(URI_QUERY, qs);
    var calls := paths + queries;
    var res := AddAll(recs, Last(0, recs), calls).0;
    AddAllSorts(recs, calls, URI_PATH);
    AddAllSorts(recs, calls, URI_QUERY);
    NoUriOptions(Options(0, recs), URI_PATH);
    NoUriOptions(Options(0, recs), URI_QUERY);
    NumbersOfParts(ps, qs);
    OptionsSorted(0, res);
    UriOptionsOfSorted(Options(0, res));
    assert [] + paths == paths && [] + queries == queries;
  }

  lemma NumbersOfParts(ps: seq<seq<byte>>, qs: seq<seq<byte>>)
    requires Parts(ps, qs)
    ensures var calls := OptionsOf(URI_PATH, ps) + OptionsOf(URI_QUERY, qs);
            && WithNumber(calls, URI_PATH) == OptionsOf(URI_PATH, ps)
            && WithNumber(calls, URI_QUERY) == OptionsOf(URI_QUERY, qs)
  {
    var paths, queries := OptionsOf(URI_PATH, ps), OptionsOf(URI_QUERY, qs);
    assert queries + [] == queries;
    assert paths + [] == paths && [] + queries == queries;
    WithNumberOfOptions(URI_PATH, URI_PATH, ps, queries);
    WithNumberOfOptions(URI_PATH, URI_QUERY, ps, queries);
    WithNumberOfOptions(URI_QUERY, URI_PATH, qs, []);
    WithNumberOfOptions(URI_QUERY, URI_QUERY, qs, []);
  }

  // Printing

  lemma {:induction false} PrintSkipsOthers(opts: seq<CoapOption>, text: seq<byte>, firstQuery: bool, separator: byte)
    requires text != []
    ensures Print(opts, text, firstQuery, separator) == Print(UriOptions(opts), text, firstQuery, separator)
    decreases opts
  {
    if opts != [] {
      var o := opts[0];
      if !IsUriNumber(o.number) {
        PrintSkipsOthers(opts[1..], text, firstQuery, separator);
        assert [] + UriOptions(opts[1..]) == UriOptions(opts[1..]);
      } else if o.value != [SLASH] {
        assert UriOptions(opts)[1..] == UriOptions(opts[1..]);
        PrintSkipsOthers(opts[1..], Turned(o.number, text, firstQuery) + o.value + [SeparatorFor(o.number, separator)],
                         firstQuery && o.number != URI_QUERY, SeparatorFor(o.number, separator));
      }
    }
  }

  /** Printing segments in front of other options. */
  lemma {:induction false} PrintSegments(before: seq<byte>, ps: seq<seq<byte>>, rest: seq<CoapOption>)
    requires Parts(ps, [])
    ensures Print(OptionsOf(URI_PATH, ps) + rest, before + [SLASH], true, SLASH)
         == Print(rest, before + Paths(ps) + [SLASH], true, SLASH)
    decreases ps
  {
    if ps == [] {
      assert [] + rest == rest && before + [] == before;
    } else {
      var p, o := ps[0], Opt(URI_PATH, ps[0]);
      var tail := OptionsOf(URI_PATH, ps[1..]) + rest;
      assert OptionsOf(URI_PATH, ps) + rest == [o] + tail;
      assert ([o] + tail)[1..] == tail;
      assert SLASH in [SLASH];
      var next := before + [SLASH] + p;
      PrintSegments(next, ps[1..], rest);
      assert next + Paths(ps[1..]) == before + Paths(ps);
    }
  }

  /** Printing queries behind the first. */
  lemma {:induction false} PrintMoreQueries(before: seq<byte>, qs: seq<seq<byte>>)
    requires Parts([], qs)
    ensures Print(OptionsOf(URI_QUERY, qs), before + [AMPERSAND], false, AMPERSAND)
         == Whole(before + Queries(qs, AMPERSAND) + [AMPERSAND])
    decreases qs
  {
    if qs == [] {
      assert before + [] == before;
    } else {
      var q, o := qs[0], Opt(URI_QUERY, qs[0]);
      var tail := OptionsOf(URI_QUERY, qs[1..]);
      assert ([o] + tail)[1..] == tail;
      assert SLASH in [SLASH];
      var next := before + [AMPERSAND] + q;
      PrintMoreQueries(next, qs[1..]);
      assert next + Queries(qs[1..], AMPERSAND) == before + Queries(qs, AMPERSAND);
    }
  }

  /** Printing the query stage behind the path. */
  lemma PrintQueries(before: seq<byte>, qs: seq<seq<byte>>)
    requires Parts([], qs)
    ensures var p := Print(OptionsOf(URI_QUERY, qs), before + [SLASH], true, SLASH);
            p.Whole? && p.text == before + Queries(qs, QUESTION) + [if qs == [] then SLASH else AMPERSAND]
  {
    if qs == [] {
      assert before + [] == before;
    } else {
      var q, o := qs[0], Opt(URI_QUERY, qs[0]);
      var tail := OptionsOf(URI_QUERY, qs[1..]);
      assert ([o] + tail)[1..] == tail;
      assert SLASH in [SLASH];
      var text := before + [SLASH];
      assert Turned(URI_QUERY, text, true) == before + [QUESTION];
      var next := before + [QUESTION] + q;
      PrintMoreQueries(next, qs[1..]);
      assert next + Queries(qs[1..], AMPERSAND) == before + Queries(qs, QUESTION);
    }
  }

  /** What is printed for the options of a URI is the URI, and one separator that `getURI` takes off again. */
  lemma PrintParts(opts: seq<CoapOption>, ps: seq<seq<byte>>, qs: seq<seq<byte>>)
    requires Parts(ps, qs) && UriOptions(opts) == OptionsOf(URI_PATH, ps) + OptionsOf(URI_QUERY, qs)
    ensures PrintUri(opts).Whole? && |PrintUri(opts).text| == |UriOf(ps, qs)| + 1
    ensures PrintUri(opts).text[..|UriOf(ps, qs)|] == UriOf(ps, qs)
  {
    PrintSkipsOthers(opts, [SLASH], true, SLASH);
    assert [] + [SLASH] == [SLASH] && [] + Paths(ps) == Paths(ps);
    PrintSegments([], ps, OptionsOf(URI_QUERY, qs));
    PrintQueries(Paths(ps), qs);
  }

  /** The round trip on the records: a URI survives exactly when it is not one whose only query is one character. */
  lemma UriSurvivesIff(recs: seq<Record>, ps: seq<seq<byte>>, qs: seq<seq<byte>>)
    requires Numbered(recs) && UriOptions(Options(0, recs)) == []
    requires ps != [] && Parts(ps, qs) && |UriOf(ps, qs)| < 0x1_0000
    ensures UriCalls(UriOf(ps, qs)) == OptionsOf(URI_PATH, ps) + OptionsOf(URI_QUERY, Kept(qs))
    ensures var p := PrintUri(Options(0, AddAll(recs, Last(0, recs), UriCalls(UriOf(ps, qs))).0));
            && p.Whole? && |p.text| == |UriOf(ps, Kept(qs))| + 1
            && p.text[..|p.text| - 1] == UriOf(ps, Kept(qs))
            && (p.text[..|p.text| - 1] == UriOf(ps, qs) <==> !(|qs| == 1 && |qs[0]| == 1))
  {
    var u := UriOf(ps, qs);
    assert u[0..] == u && |u| > 1;
    SplitPaths(u, 0, ps, qs);
    UriOptionsAfter(recs, ps, Kept(qs));
    PrintParts(Options(0, AddAll(recs, Last(0, recs), UriCalls(u)).0), ps, Kept(qs));
    if |qs| == 1 {
      assert |Queries(qs, QUESTION)| > 0;
    }
  }

  function Joined(opts: seq<CoapOption>): seq<byte> {
    if opts == [] then [] else [SLASH] + opts[0].value + Joined(opts[1..])
  }

  /** Any path, with empty segments or not: its options joined again are the path, without a '/' at its end. */
  lemma PathConserved(u: seq<byte>)
    requires 1 < |u| < 0x1_0000 && u[0] == SLASH && QUESTION !in u
    ensures forall o :: o in UriCalls(u) ==> o.number == 11 && SLASH !in o.value
    ensures u == Joined(UriCalls(u)) + if u[|u| - 1] == SLASH then [SLASH] else []
  {
    PathConservedFrom(u, 0);
    assert u[0..] == u;
  }

  lemma {:induction false} PathConservedFrom(u: seq<byte>, i: nat)
    requires i <= |u| < 0x1_0000 && |u| > 1 && (i < |u| ==> u[i] == SLASH) && QUESTION !in u
    ensures var calls := Calls(u, Splitter(i, SLASH, URI_PATH));
            && (forall o :: o in calls ==> o.number == 11 && SLASH !in o.value)
            && u[i..] == Joined(calls) + if i < |u| && u[|u| - 1] == SLASH then [SLASH] else []
    decreases |u| - i
  {
    hide Find, Calls, PartEnd, PartStart, Part, Next;
    var st := Splitter(i, SLASH, URI_PATH);
    if InTurn(u, st) {
      var j := SegmentTurn(u, i);
      var o, next := Opt(URI_PATH, u[i + 1..j]), Splitter(j, SLASH, URI_PATH);
      PathConservedFrom(u, j);
      CallsTurn(u, st, o, next);
      JoinedCons(o, Calls(u, next));
    } else {
      CallsDone(u, st);
    }
  }

  lemma JoinedCons(o: CoapOption, rest: seq<CoapOption>)
    ensures Joined([o] + rest) == [SLASH] + o.value + Joined(rest)
  {}

  /** A turn in a path takes the segment behind a '/', up to the next one. */
  lemma SegmentTurn(u: seq<byte>, i: nat) returns (j: nat)
    requires i + 1 < |u| < 0x1_0000 && u[i] == SLASH && QUESTION !in u
    ensures i < j <= |u| && (j < |u| ==> u[j] == SLASH) && SLASH !in u[i + 1..j]
    ensures var st := Splitter(i, SLASH, URI_PATH);
            Part(u, st) == Opt(URI_PATH, u[i + 1..j]) && Next(u, st) == Splitter(j, SLASH, URI_PATH)
    ensures u[i..] == [SLASH] + u[i + 1..j] + u[j..]
  {
    hide Find;
    j := PartEnd(u, Splitter(i, SLASH, URI_PATH));
  }

  /** "/a/b?c&d", with its characters spelled out: two path options and two queries. */
  lemma TwoSegmentsTwoQueries(a: seq<byte>, b: seq<byte>, c: seq<byte>, d: seq<byte>)
    requires Segment(a) && Segment(b) && Query(c) && Query(d)
    ensures var u := [0x2f] + a + [0x2f] + b + [0x3f] + c + [0x26] + d;
            |u| < 0x1_0000 ==> UriCalls(u) == [Opt(11, a), Opt(11, b), Opt(15, c), Opt(15, d)]
  {
    var u := [0x2f] + a + [0x2f] + b + [0x3f] + c + [0x26] + d;
    UriOfTwo(a, b, c, d);
    hide AddAll, Options, PrintUri, Find, Calls, UriOf, UriCalls, OptionsOf, UriOptions, Last, Segment, Query;
    NoOptions();
    TwoOptions(11, a, b);
    TwoOptions(15, c, d);
    if |u| < 0x1_0000 {
      UriSurvivesIff([], [a, b], [c, d]);
      assert [Opt(11, a), Opt(11, b)] + [Opt(15, c), Opt(15, d)] == [Opt(11, a), Opt(11, b), Opt(15, c), Opt(15, d)];
    }
  }

  lemma NoOptions()
    ensures UriOptions(Options(0, [])) == [] && Numbered([])
  {}

  lemma TwoOptions(n: uint16, a: OptionValue, b: OptionValue)
    ensures OptionsOf(n, [a, b]) == [Opt(n, a), Opt(n, b)]
  {}

  lemma UriOfTwo(a: seq<byte>, b: seq<byte>, c: seq<byte>, d: seq<byte>)
    ensures UriOf([a, b], [c, d]) == [0x2f] + a + [0x2f] + b + [0x3f] + c + [0x26] + d
  {
    PathsCons(b, []);
    PathsCons(a, [b]);
    QueriesCons(d, [], AMPERSAND);
    QueriesCons(c, [d], QUESTION);
    hide Paths, Queries;
    assert [b] + [] == [b] && [a] + [b] == [a, b] && [d] + [] == [d] && [c] + [d] == [c, d];
  }

  lemma PathsCons(p: seq<byte>, ps: seq<seq<byte>>)
    ensures Paths([]) == [] && Paths([p] + ps) == [SLASH] + p + Paths(ps)
  {}

  lemma QueriesCons(q: seq<byte>, qs: seq<seq<byte>>, lead: byte)
    ensures Queries([], AMPERSAND) == [] && Queries([q] + qs, lead) == [lead] + q + Queries(qs, AMPERSAND)
  {}

  /** Behind a lone "/" component nothing is printed any more. */
  lemma CutAtSlash(opts: seq<CoapOption>, ps: seq<seq<byte>>, rest: seq<CoapOption>)
    requires Parts(ps, [])
    requires UriOptions(opts) == OptionsOf(URI_PATH, ps) + ([Opt(URI_PATH, [SLASH])] + rest)
    ensures PrintUri(opts) == Cut(Paths(ps) + [SLASH])
  {
    PrintSkipsOthers(opts, [SLASH], true, SLASH);
    assert [] + [SLASH] == [SLASH] && [] + Paths(ps) == Paths(ps);
    PrintSegments([], ps, [Opt(URI_PATH, [SLASH])] + rest);
  }

  /** A URI of one character becomes one path option: "/" is printed as it is, any other with a '/' in front. */
  lemma OneCharacterPrinted(recs: seq<Record>, x: byte)
    requires Numbered(recs) && UriOptions(Options(0, recs)) == []
    ensures var p := PrintUri(Options(0, AddAll(recs, Last(0, recs), UriCalls([x])).0));
            p == if x == 47 then Cut([47]) else Whole([47, x, 47])
  {
    var calls, max := [Opt(URI_PATH, [x])], Last(0, recs);
    assert UriCalls([x]) == calls;
    hide AddAll, Last, Sorted, WithNumber, UriCalls;
    NumbersOfOne(Opt(URI_PATH, [x]));
    var opts := Options(0, AddAll(recs, max, calls).0);
    AddAllSorts(recs, calls, URI_PATH);
    AddAllSorts(recs, calls, URI_QUERY);
    NoUriOptions(Options(0, recs), URI_PATH);
    NoUriOptions(Options(0, recs), URI_QUERY);
    OptionsSorted(0, AddAll(recs, max, calls).0);
    UriOptionsOfSorted(opts);
    hide Options;
    assert [] + calls == calls && calls + [] == calls;
    OneCharacter(opts, x);
  }

  lemma NumbersOfOne(o: CoapOption)
    ensures forall n: uint16 :: WithNumber([o], n) == if o.number == n then [o] else []
  {
    forall n: uint16
      ensures WithNumber([o], n) == if o.number == n then [o] else []
    {
      assert [o][1..] == [] && WithNumber([], n) == [];
    }
  }

  lemma OneCharacter(opts: seq<CoapOption>, x: byte)
    requires UriOptions(opts) == [Opt(URI_PATH, [x])]
    ensures PrintUri(opts) == if x == 47 then Cut([47]) else Whole([47, x, 47])
  {
    PrintSkipsOthers(opts, [SLASH], true, SLASH);
    var o := Opt(URI_PATH, [x]);
    assert [o][1..] == [];
    assert [SLASH] + [x] + [SLASH] == [SLASH, x, SLASH];
  }

  /** `setURI` with one character and then `getURI`: the call always succeeds, also when the option did not fit. */
  method SetOneThenGet(c: CoapPDU, x: byte, dst: array<byte>, dstlen: int)
      returns (added: int, ghost stored: bool, res: int, outLen: int)
    requires Built(c) && UriOptions(c.Contents()) == [] && dst != c.pdu && x != 0 && 4 <= dstlen <= dst.Length
    modifies c, c.pdu, dst
    ensures added == 0
    ensures c.constructedFromBuffer ==>
              (stored <==>
                 |old(Head(c.Bytes()))| + |Encode(AddAll(old(c.recs), Last(0, old(c.recs)), [Opt(11, [x])]).0)|
                 <= old(c.bufferLength))
    ensures stored ==>
              && res == 0 && outLen == (if x == 47 then 1 else 2)
              && dst[0] == 47 && (x != 47 ==> dst[1] == x) && dst[outLen] == 0
  {
    hide Encode, Wire, PrintUri, UriCalls, AddAll, Options, UriOptions, Stores, Last, Head, CoapPDU.Read,
         CoapPDU.Parsed, CoapPDU.Valid;
    OneCharacterPrinted(c.recs, x);
    CallOfOne(x);
    PrintOfNone();
    ghost var calls, more := UriCalls([x]), [];
    added, more := SetURI(c, [x]);
    stored := |more| == 1;
    assert calls[..1] == calls;
    if stored {
      StoredExactly(more, calls);
    }
    c.OptionsShown();
    res, outLen := GetURI(c, dst, dstlen, 0);
    if stored {
      OneCharacterText(x, PrintUri(c.Read()), dst[..], outLen);
    }
  }

  lemma OneCharacterText(x: byte, p: Printed, out: seq<byte>, n: int)
    requires p == if x == 47 then Cut([47]) else Whole([47, x, 47])
    requires |out| >= 3 && 0 <= n && (p.Whole? ==> n == 2 && out[..n] == p.text[..n]) && (p.Cut? ==> out[..1] == p.text)
    ensures out[0] == 47 && (x != 47 ==> out[1] == x)
  {
    if p.Whole? {
      assert out[0] == out[..2][0] && out[1] == out[..2][1];
    } else {
      assert out[0] == out[..1][0];
    }
  }

  lemma CallOfOne(x: byte)
    ensures UriCalls([x]) == [Opt(11, [x])]
  {}

  lemma StoredExactly(stored: seq<CoapOption>, calls: seq<CoapOption>)
    requires StoredAs(stored, calls) && |stored| == |calls| && forall o :: o in calls ==> |o.value| < 269
    ensures stored == calls
  {
    forall k | 0 <= k < |calls|
      ensures stored[k] == calls[k]
    {
      assert calls[k] in calls;
      ValueStoredIffShort(calls[k].value);
    }
  }

  lemma PathsNotEmpty(ps: seq<seq<byte>>, qs: seq<seq<byte>>)
    requires ps != []
    ensures |UriOf(ps, qs)| > 0
  {}

  /** `setURI` and then `getURI` on a built PDU without URI options, when the options fit and the buffer is large
      enough. */
  method SetThenGet(c: CoapPDU, ps: seq<seq<byte>>, qs: seq<seq<byte>>, dst: array<byte>, dstlen: int)
      returns (added: int, res: int, outLen: int)
    requires Built(c) && UriOptions(c.Contents()) == [] && dst != c.pdu
    requires ps != [] && Parts(ps, qs) && 0 !in UriOf(ps, qs) && |UriOf(ps, qs)| <= 65530
    requires forall o :: o in UriCalls(UriOf(ps, qs)) ==> |o.value| < 269
    requires |UriOf(ps, qs)| + 2 <= dstlen <= dst.Length
    modifies c, c.pdu, dst
    ensures c.constructedFromBuffer ==>
              (added == 0 <==>
                 |old(Head(c.Bytes()))| + |Encode(AddAll(old(c.recs), Last(0, old(c.recs)), UriCalls(UriOf(ps, qs))).0)|
                 <= old(c.bufferLength))
    ensures added == 0 ==>
              && res == 0 && outLen == |UriOf(ps, Kept(qs))| < dst.Length
              && dst[..outLen] == UriOf(ps, Kept(qs)) && dst[outLen] == 0
  {
    hide Encode, Wire, PrintUri, UriCalls, AddAll, Options, UriOf, UriOptions, Stores, Last, Parts, Kept, Head,
         CoapPDU.Read, CoapPDU.Parsed;
    UriSurvivesIff(c.recs, ps, qs);
    KeptIsShorter(ps, qs);
    ghost var stored;
    ghost var calls := UriCalls(UriOf(ps, qs));
    added, stored := SetURI(c, UriOf(ps, qs));
    assert calls[..|calls|] == calls;
    res, outLen := 1, 0;
    if added == 0 {
      StoredExactly(stored, UriCalls(UriOf(ps, qs)));
      BuiltIsValid(c);
      c.OptionsShown();
      PrintOfNone();
      res, outLen := GetURI(c, dst, dstlen, 0);
    }
  }

  lemma KeptIsShorter(ps: seq<seq<byte>>, qs: seq<seq<byte>>)
    requires ps != [] && Parts(ps, qs)
    ensures 1 <= |UriOf(ps, Kept(qs))| <= |UriOf(ps, qs)| && 1 < |UriOf(ps, qs)|
  {
    PathsNotEmpty(ps, Kept(qs));
  }

  lemma PrintOfNone()
    ensures PrintUri([]) == Whole([SLASH])
  {}
}
