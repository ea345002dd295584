/** String search, split and replace: loops over the leftmost occurrences of a substring. */
module Strings {
  predicate Occurs(s: string, k: nat, t: string) { k + |t| <= |s| && s[k..k + |t|] == t }

  /** `str_indexof`: where t is found in s, or -1. */
  function Index(s: string, t: string): (i: int)
    ensures -1 <= i && (i >= 0 ==> i + |t| <= |s|)
  {
    if |t| > |s| then -1
    else if s[..|t|] == t then 0
    else
      var i := Index(s[1..], t);
      if i < 0 then -1 else i + 1
  }

  predicate Contains(s: string, t: string) { Index(s, t) >= 0 }

  lemma OccursBehind(s: string, t: string, k: nat)
    requires 0 < k && s != ""
    ensures Occurs(s, k, t) <==> Occurs(s[1..], k - 1, t)
  {
    if k + |t| <= |s| {
      assert s[k..k + |t|] == s[1..][k - 1..k - 1 + |t|];
    }
  }

  /** The position found is the leftmost occurrence, and -1 means there is none. */
  lemma {:induction false} IndexIsLeftmost(s: string, t: string)
    ensures Index(s, t) >= 0 ==> Occurs(s, Index(s, t), t)
    ensures forall k: nat :: Occurs(s, k, t) ==> 0 <= Index(s, t) <= k
  {
    if |t| <= |s| && s[..|t|] != t {
      IndexIsLeftmost(s[1..], t);
      forall k: nat | Occurs(s, k, t)
        ensures 0 <= Index(s, t) <= k
      {
        OccursBehind(s, t, k);
      }
      if Index(s, t) >= 0 {
        OccursBehind(s, t, Index(s, t));
      }
    }
  }

  /** s cut at the leftmost, non-overlapping occurrences of t. */
  function Pieces(s: string, t: string): (ps: seq<string>)
    requires t != ""
    ensures ps != []
    decreases |s|
  {
    var i := Index(s, t);
    if i < 0 then [s] else [s[..i]] + Pieces(s[i + |t|..], t)
  }

  function Join(ps: seq<string>, r: string): string
    requires ps != []
  {
    if |ps| == 1 then ps[0] else ps[0] + r + Join(ps[1..], r)
  }

  /** What a split is, without saying how it is found: joined it gives s back, t does not occur in the last piece, and
      behind any other piece the separator is found at its end and not before. */
  predicate IsSplit(ps: seq<string>, s: string, t: string) {
    && ps != [] && Join(ps, t) == s
    && (forall k :: 0 <= k < |ps| - 1 ==> Index(ps[k] + t, t) == |ps[k]|)
    && !Contains(ps[|ps| - 1], t)
  }

  /** The first occurrence does not depend on what follows it. */
  lemma IndexOfPrefix(p: string, t: string, rest: string)
    ensures Index(p + t, t) == |p| <==> Index(p + t + rest, t) == |p|
  {
    hide Index, Occurs;
    var s, u := p + t, p + t + rest;
    IndexIsLeftmost(s, t);
    IndexIsLeftmost(u, t);
    OccursInPrefix(s, rest, t);
    OccursAtEnd(p, t);
    if Index(s, t) != |p| {
      assert Occurs(u, Index(s, t), t);
    }
  }

  lemma OccursInPrefix(s: string, rest: string, t: string)
    ensures forall k: nat :: k + |t| <= |s| ==> (Occurs(s, k, t) <==> Occurs(s + rest, k, t))
  {
    forall k: nat | k + |t| <= |s|
      ensures Occurs(s, k, t) <==> Occurs(s + rest, k, t)
    {
      assert s[k..k + |t|] == (s + rest)[k..k + |t|];
    }
  }

  lemma OccursAtEnd(p: string, t: string)
    ensures Occurs(p + t, |p|, t)
  {}

  lemma {:induction false} PiecesAreSplit(s: string, t: string)
    requires t != ""
    ensures IsSplit(Pieces(s, t), s, t)
    decreases |s|
  {
    hide Index, Occurs;
    IndexIsLeftmost(s, t);
    var i, ps := Index(s, t), Pieces(s, t);
    if i >= 0 {
      var p, rest := s[..i], s[i + |t|..];
      PiecesAreSplit(rest, t);
      assert ps == [p] + Pieces(rest, t) && ps[1..] == Pieces(rest, t);
      CutAt(s, t, i);
      IndexOfPrefix(p, t, rest);
    }
  }

  lemma CutAt(s: string, t: string, i: nat)
    requires Occurs(s, i, t)
    ensures s == s[..i] + t + s[i + |t|..]
  {}

  lemma {:induction false} SplitIsPieces(ps: seq<string>, s: string, t: string)
    requires t != "" && IsSplit(ps, s, t)
    ensures ps == Pieces(s, t)
  {
    hide Index, Occurs;
    if |ps| > 1 {
      var p, rest := ps[0], Join(ps[1..], t);
      IndexOfPrefix(p, t, rest);
      assert s[..|p|] == p && s[|p| + |t|..] == rest;
      SplitIsPieces(ps[1..], rest, t);
    }
  }

  /** The split is the only one. */
  lemma SplitIff(ps: seq<string>, s: string, t: string)
    requires t != ""
    ensures IsSplit(ps, s, t) <==> ps == Pieces(s, t)
  {
    PiecesAreSplit(s, t);
    if IsSplit(ps, s, t) {
      SplitIsPieces(ps, s, t);
    }
  }

  /** No piece contains the separator. */
  lemma PiecesClean(s: string, t: string, k: nat)
    requires t != "" && k < |Pieces(s, t)|
    ensures !Contains(Pieces(s, t)[k], t)
  {
    hide Index, Occurs, Pieces, Join;
    PiecesAreSplit(s, t);
    var p := Pieces(s, t)[k];
    IndexIsLeftmost(p, t);
    IndexIsLeftmost(p + t, t);
    OccursInPrefix(p, t, t);
  }

  /** Length of the string with every piece boundary replaced. */
  lemma {:induction false} ReplaceLength(s: string, t: string, r: string)
    requires t != ""
    ensures |Join(Pieces(s, t), r)| == |s| + Times(|Pieces(s, t)| - 1, |r| - |t|)
    decreases |s|
  {
    hide Index, Times;
    Distribute(0, |r| - |t|);
    var i := Index(s, t);
    if i >= 0 {
      var rest := s[i + |t|..];
      ReplaceLength(rest, t, r);
      assert Pieces(s, t)[1..] == Pieces(rest, t);
      Distribute(|Pieces(rest, t)|, |r| - |t|);
    }
  }

  function Times(n: int, d: int): int { n * d }

  lemma Distribute(n: int, d: int)
    ensures Times(n, d) == Times(n - 1, d) + d && Times(0, d) == 0
  {}

  // The loops

  lemma SliceOfRest(s: string, position: nat, end: nat, next: nat)
    requires position <= end <= next <= |s|
    ensures s[position..][..end - position] == s[position..end] && s[position..][next - position..] == s[next..]
  {}

  lemma FirstPiece(u: string, t: string, i: nat)
    requires t != "" && Index(u, t) == i
    ensures Pieces(u, t) == [u[..i]] + Pieces(u[i + |t|..], t)
  {
    hide Index;
  }

  /** The pieces from a position on, as one turn of each loop sees them. */
  lemma Turn(s: string, t: string, position: nat, end: nat, next: nat)
    requires t != "" && position <= end <= next == end + |t| <= |s| && Index(s[position..], t) == end - position
    ensures Pieces(s[position..], t) == [s[position..end]] + Pieces(s[next..], t)
  {
    hide Index, Pieces;
    var u := s[position..];
    FirstPiece(u, t, end - position);
    SliceOfRest(s, position, end, next);
    assert end - position + |t| == next - position;
  }

  lemma LastTurn(u: string, t: string)
    requires t != "" && (u == "" || Index(u, t) < 0)
    ensures Index(u, t) < 0 && Pieces(u, t) == [u]
  {}

  /** `str_contains_count`. */
  method ContainsCount(s: string, t: string) returns (result: nat)
    ensures result == if s == "" || t == "" then 0 else |Pieces(s, t)| - 1
  {
    hide Index, Pieces;
    if |s| == 0 || |t| == 0 {
      return 0;
    }
    result := 0;
    var position := 0;
    assert s[0..] == s;
    var temp := Index(s, t);
    while position < |s| && temp > -1
      invariant 0 <= position <= |s| && temp == Index(s[position..], t)
      invariant result + |Pieces(s[position..], t)| == |Pieces(s, t)|
      decreases |s| - position
    {
      Turn(s, t, position, position + temp, position + temp + |t|);
      result := result + 1;
      position := position + temp + |t|;
      temp := Index(s[position..], t);
    }
    LastTurn(s[position..], t);
  }

  lemma CountZero(s: string, t: string)
    requires t != ""
    ensures |Pieces(s, t)| == 1 <==> !Contains(s, t)
  {
    hide Index;
  }

  datatype Entry = Null | Piece(text: string)

  /** `str_split_by_string`: nothing without an occurrence of t, else an array of the pieces with Null behind them. */
  method SplitByString(s: string, t: string) returns (result: array?<Entry>)
    ensures result == null <==> s == "" || t == "" || !Contains(s, t)
    ensures result != null ==>
              && fresh(result) && result.Length == |Pieces(s, t)| + 1
              && (forall k :: 0 <= k < |Pieces(s, t)| ==> result[k] == Piece(Pieces(s, t)[k]))
              && result[|Pieces(s, t)|] == Null
  {
    hide Index, Pieces;
    if |s| == 0 || |t| == 0 {
      return null;
    }
    var count := ContainsCount(s, t);
    CountZero(s, t);
    assert s[0..] == s;
    if count == 0 {
      return null;
    }
    ghost var ps := Pieces(s, t);
    result := new Entry[count + 2];
    var position, n := 0, 0;
    assert ps[0..] == ps;
    var temp := Index(s, t);
    while position < |s| && temp > -1
      invariant 0 <= position <= |s| && temp == Index(s[position..], t)
      invariant n < |ps| && ps[n..] == Pieces(s[position..], t)
      invariant forall k :: 0 <= k < n ==> result[k] == Piece(ps[k])
      decreases |s| - position
    {
      Turn(s, t, position, position + temp, position + temp + |t|);
      assert ps[n] == ps[n..][0] && ps[n + 1..] == ps[n..][1..];
      result[n] := Piece(s[position..position + temp]);
      n, position := n + 1, position + temp + |t|;
      temp := Index(s[position..], t);
    }
    LastTurn(s[position..], t);
    assert ps[n] == ps[n..][0] && |ps[n..]| == 1;
    result[n] := Piece(s[position..]);
    n := n + 1;
    result[n] := Null;
  }

  /** `memcpy`. */
  method CopyTo(dest: array<char>, at: nat, text: string) returns (next: nat)
    requires at + |text| <= dest.Length
    modifies dest
    ensures next == at + |text| && dest[..next] == old(dest[..at]) + text
    ensures forall k :: next <= k < dest.Length ==> dest[k] == old(dest[k])
  {
    forall k | 0 <= k < |text| {
      dest[at + k] := text[k];
    }
    next := at + |text|;
  }

  /** Written so far and still to come: a piece and the replacement go over. */
  lemma PieceGoesOver(out: string, done: string, p: string, ps: seq<string>, r: string)
    requires ps != [] && out == done + Join([p] + ps, r)
    ensures out == done + p + r + Join(ps, r)
  {
    hide Join;
    JoinStep(p, ps, r);
    var j := Join(ps, r);
    assert done + (p + r + j) == done + p + r + j;
  }

  lemma JoinStep(p: string, ps: seq<string>, r: string)
    requires ps != []
    ensures Join([p] + ps, r) == p + r + Join(ps, r) && Join([p], r) == p
  {
    assert ([p] + ps)[1..] == ps;
  }

  /** `str_replace`: false stands for the empty literal it returns for an empty string or target. */
  method Replace(s: string, t: string, r: string, dest: array<char>) returns (written: bool)
    requires s != "" && t != "" ==> |Join(Pieces(s, t), r)| < dest.Length
    modifies dest
    ensures written <==> s != "" && t != ""
    ensures !written ==> forall k :: 0 <= k < dest.Length ==> dest[k] == old(dest[k])
    ensures written ==>
              var out := Join(Pieces(s, t), r);
              && dest[..|out|] == out && dest[|out|] == '\0'
              && forall k :: |out| < k < dest.Length ==> dest[k] == old(dest[k])
  {
    hide Index, Pieces, Join, Times;
    if |s| == 0 || |t| == 0 {
      return false;
    }
    Distribute(0, |r| - |t|);
    ghost var out := Join(Pieces(s, t), r);
    ReplaceLength(s, t, r);
    var count := ContainsCount(s, t);
    var length := |s| + Times(count, |r| - |t|);
    var positionOld, positionNew := 0, 0;
    ghost var turns, rest := 0, Pieces(s, t);
    assert s[0..] == s && dest[..0] + out == out;
    var temp := Index(s, t);
    while positionOld < |s| && temp > -1
      invariant 0 <= positionOld <= |s| && temp == Index(s[positionOld..], t)
      invariant 0 <= positionNew <= |out| == length && positionNew == positionOld + Times(turns, |r| - |t|)
      invariant rest == Pieces(s[positionOld..], t) && out == dest[..positionNew] + Join(rest, r)
      invariant forall k :: |out| < k < dest.Length ==> dest[k] == old(dest[k])
      decreases |s| - positionOld
    {
      Turn(s, t, positionOld, positionOld + temp, positionOld + temp + |t|);
      ghost var p, done := s[positionOld..positionOld + temp], dest[..positionNew];
      rest := rest[1..];
      PieceGoesOver(out, done, p, rest, r);
      positionNew := CopyTo(dest, positionNew, s[positionOld..positionOld + temp]);
      positionNew := CopyTo(dest, positionNew, r);
      positionOld := positionOld + temp + |t|;
      temp := Index(s[positionOld..], t);
      turns := turns + 1;
      Distribute(turns, |r| - |t|);
    }
    LastTurn(s[positionOld..], t);
    JoinStep(s[positionOld..], [""], r);
    assert |s[positionOld..]| == length - positionNew;
    positionNew := CopyTo(dest, positionNew, s[positionOld..positionOld + (length - positionNew)]);
    dest[length] := '\0';
    return true;
  }
}
