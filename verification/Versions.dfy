/** pacman's version order: what the two-cursor comparison computes, and when it is an order. */
module Versions {
  import opened Basics

  datatype Ordering = Less | Equal | Greater {
    function Flip(): (r: Ordering) {
      match this
      case Less => Greater
      case Equal => Equal
      case Greater => Less
    }

    function Then(next: Ordering): (r: Ordering) { if Equal? then next else this }
  }

  function Natural(x: int, y: int): (r: Ordering) {
    if x < y then Less else if x == y then Equal else Greater
  }

  // ------------------------------------------------------------------ tokens

  predicate Digit(c: byte) { 48 <= c <= 57 }

  predicate Alpha(c: byte) { 65 <= c <= 90 || 97 <= c <= 122 }

  predicate Alnum(c: byte) { Digit(c) || Alpha(c) }

  predicate OfKind(c: byte, numeric: bool) { if numeric then Digit(c) else Alpha(c) }

  /** A run of digits or of letters, and how many other bytes stand before it. */
  datatype Token = Token(sep: nat, numeric: bool, text: Bytes)

  function SepRun(s: Bytes): (n: nat)
    ensures n <= |s|
    ensures n < |s| ==> Alnum(s[n])
  {
    if s == [] || Alnum(s[0]) then 0 else 1 + SepRun(s[1..])
  }

  function KindRun(s: Bytes, numeric: bool): (n: nat)
    ensures n <= |s|
    ensures n < |s| ==> !OfKind(s[n], numeric)
  {
    if s == [] || !OfKind(s[0], numeric) then 0 else 1 + KindRun(s[1..], numeric)
  }

  /** Cut a run of `k` bytes that stands after `n` others. */
  function Cut(s: Bytes, n: nat, k: nat): (r: (Token, Bytes))
    requires n < |s| && k <= |s| - n
  {
    (Token(n, Digit(s[n]), s[n..n + k]), s[n + k..])
  }

  /** The length of the run at `n`. */
  function RunAt(s: Bytes, n: nat): (k: nat)
    requires n < |s|
    ensures k <= |s| - n
    ensures Alnum(s[n]) ==> k > 0
  {
    assert s[n..][0] == s[n];
    KindRun(s[n..], Digit(s[n]))
  }

  /** The first token and what follows it. */
  function FirstToken(s: Bytes): (r: (Token, Bytes))
    requires SepRun(s) < |s|
    ensures |r.1| < |s|
  {
    Cut(s, SepRun(s), RunAt(s, SepRun(s)))
  }

  function Tokens(s: Bytes): (ts: seq<Token>)
    decreases |s|
  {
    if SepRun(s) == |s| then [] else [FirstToken(s).0] + Tokens(FirstToken(s).1)
  }

  /** How many bytes that belong to no run end the string. */
  function Trail(s: Bytes): (n: nat)
    ensures n <= |s|
    decreases |s|
  {
    if SepRun(s) == |s| then |s| else Trail(FirstToken(s).1)
  }

  // ------------------------------------------------------------------ the order on token lists

  function Lex(x: Bytes, y: Bytes): (r: Ordering) {
    if x == [] && y == [] then Equal
    else if x == [] then Less
    else if y == [] then Greater
    else Natural(x[0], y[0]).Then(Lex(x[1..], y[1..]))
  }

  function StripZeros(x: Bytes): (r: Bytes) {
    if x != [] && x[0] == 48 then StripZeros(x[1..]) else x
  }

  function CompareText(numeric: bool, x: Bytes, y: Bytes): (r: Ordering) {
    if numeric then
      var x, y := StripZeros(x), StripZeros(y);
      Natural(|x|, |y|).Then(Lex(x, y))
    else Lex(x, y)
  }

  function CompareToken(a: Token, b: Token): (r: Ordering) {
    if a.sep != b.sep then Natural(a.sep, b.sep)
    else if a.numeric != b.numeric then (if a.numeric then Greater else Less)
    else CompareText(a.numeric, a.text, b.text)
  }

  /**
   * A list that ran out against one that goes on with `t`: a letter run is older
   * than nothing, unless bytes stand before it; with bytes left at the end of the
   * shorter string the ones before `t` do not count.
   */
  function EndAgainst(trail: nat, t: Token): (r: Ordering) {
    if !t.numeric && (trail > 0 || t.sep == 0) then Greater else Less
  }

  function CompareTokens(a: seq<Token>, ta: nat, b: seq<Token>, tb: nat): (r: Ordering) {
    if a == [] && b == [] then
      (if ta == 0 && tb > 0 then Less else if ta > 0 && tb == 0 then Greater else Equal)
    else if a == [] then EndAgainst(ta, b[0])
    else if b == [] then EndAgainst(tb, a[0]).Flip()
    else CompareToken(a[0], b[0]).Then(CompareTokens(a[1..], ta, b[1..], tb))
  }

  function Compare(a: Bytes, b: Bytes): (r: Ordering) {
    CompareTokens(Tokens(a), Trail(a), Tokens(b), Trail(b))
  }

  // ------------------------------------------------------------------ the loop computes it

  method SkipZeros(x: Bytes) returns (y: Bytes)
    ensures y == StripZeros(x)
  {
    y := x;
    while y != [] && y[0] == 48
      invariant StripZeros(y) == StripZeros(x)
      decreases |y|
    {
      y := y[1..];
    }
  }

  method CompareBytes(x: Bytes, y: Bytes) returns (r: Ordering)
    ensures r == Lex(x, y)
  {
    var i := 0;
    assert x[0..] == x && y[0..] == y;
    while i < |x| && i < |y|
      invariant 0 <= i <= |x| && i <= |y|
      invariant Lex(x[i..], y[i..]) == Lex(x, y)
    {
      if x[i] != y[i] {
        return Natural(x[i], y[i]);
      }
      i := i + 1;
    }
    r := Natural(|x|, |y|);
  }

  lemma {:induction false} SepRunAt(s: Bytes, n: nat)
    requires n <= |s|
    requires forall i :: 0 <= i < n ==> !Alnum(s[i])
    requires n < |s| ==> Alnum(s[n])
    ensures SepRun(s) == n
  {
    if n > 0 {
      SepRunAt(s[1..], n - 1);
    }
  }

  method SkipSeparators(s: Bytes) returns (n: nat)
    ensures n == SepRun(s)
  {
    n := 0;
    while n < |s| && !Alnum(s[n])
      invariant n <= |s|
      invariant forall i :: 0 <= i < n ==> !Alnum(s[i])
    {
      n := n + 1;
    }
    SepRunAt(s, n);
  }

  lemma BothGoOn(x: Bytes, y: Bytes)
    requires SepRun(x) < |x| && SepRun(y) < |y|
    ensures Compare(x, y) ==
            CompareToken(FirstToken(x).0, FirstToken(y).0).Then(Compare(FirstToken(x).1, FirstToken(y).1))
  {
    assert Tokens(x)[1..] == Tokens(FirstToken(x).1);
    assert Tokens(y)[1..] == Tokens(FirstToken(y).1);
  }

  lemma FirstByte(x: Bytes)
    requires SepRun(x) < |x|
    ensures Tokens(x) != [] && Tokens(x)[0].sep == SepRun(x)
    ensures Tokens(x)[0].numeric <==> Digit(x[SepRun(x)])
    ensures SepRun(x) == 0 <==> Alnum(x[0])
  {
  }

  /** A string used up before the turn: the separators before the other's next run still count. */
  lemma OneUsedUp(x: Bytes, y: Bytes)
    requires x == [] || y == []
    ensures Compare(x, y) == Leftover(x, y)
  {
    if SepRun(x) < |x| {
      FirstByte(x);
    } else if SepRun(y) < |y| {
      FirstByte(y);
    }
  }

  /** A string used up during the turn: both cursors stand past their separators. */
  lemma OneRunsOut(x: Bytes, y: Bytes)
    requires x != [] && y != [] && (SepRun(x) == |x| || SepRun(y) == |y|)
    ensures Compare(x, y) == Leftover(x[SepRun(x)..], y[SepRun(y)..])
  {
    if SepRun(x) < |x| {
      FirstByte(x);
    } else if SepRun(y) < |y| {
      FirstByte(y);
    }
  }

  /** `rpmvercmp`: turn by turn until a cursor reaches its end. A cursor is the suffix it stands at. */
  method Rpmvercmp(a: Bytes, b: Bytes) returns (r: Ordering)
    ensures r == Compare(a, b)
  {
    if a == b {
      CompareReflexive(Tokens(a), Trail(a));
      return Equal;
    }
    var one, two := a, b;
    while one != [] && two != []
      invariant Compare(one, two) == Compare(a, b)
      decreases |one|
    {
      var done, end1, end2;
      done, r, end1, end2 := Turn(one, two);
      if done {
        return;
      }
      one, two := one[end1..], two[end2..];
    }
    OneUsedUp(one, two);
    r := Leftover(one, two);
  }

  /** One turn, on the strings from the previous turn's end: `end1` and `end2` are the next one's. */
  method Turn(x: Bytes, y: Bytes) returns (done: bool, r: Ordering, end1: nat, end2: nat)
    requires x != [] && y != []
    ensures end1 <= |x| && end2 <= |y|
    ensures done ==> r == Compare(x, y)
    ensures !done ==> 0 < end1 && Compare(x[end1..], y[end2..]) == Compare(x, y)
  {
    var n1 := SkipSeparators(x);
    var n2 := SkipSeparators(y);
    if n1 >= |x| || n2 >= |y| {
      OneRunsOut(x, y);
      return true, Leftover(x[n1..], y[n2..]), n1, n2;
    }
    if n1 != n2 {
      BothGoOn(x, y);
      return true, Natural(n1, n2), n1, n2;
    }
    done, r, end1, end2 := CompareRuns(x, y, n1);
  }

  /** The rest of a turn, with both cursors on a run after equally many separators. */
  method CompareRuns(x: Bytes, y: Bytes, n: nat) returns (done: bool, r: Ordering, end1: nat, end2: nat)
    requires n == SepRun(x) == SepRun(y) && n < |x| && n < |y|
    ensures end1 <= |x| && end2 <= |y|
    ensures done ==> r == Compare(x, y)
    ensures !done ==> 0 < end1 && Compare(x[end1..], y[end2..]) == Compare(x, y)
  {
    var numeric := Digit(x[n]);
    end1 := n + KindRun(x[n..], numeric);
    end2 := n + KindRun(y[n..], numeric);
    if end2 == n {
      KindsDiffer(x, y, n);
      return true, if numeric then Greater else Less, end1, end2;
    }
    r := CompareSegments(numeric, x[n..end1], y[n..end2]);
    SameKinds(x, y, n, end1, end2, r);
    done := r != Equal;
  }

  lemma KindsDiffer(x: Bytes, y: Bytes, n: nat)
    requires n == SepRun(x) == SepRun(y) && n < |x| && n < |y|
    requires KindRun(y[n..], Digit(x[n])) == 0
    ensures Compare(x, y) == if Digit(x[n]) then Greater else Less
  {
    BothGoOn(x, y);
    assert y[n..][0] == y[n];
  }

  lemma SameKinds(x: Bytes, y: Bytes, n: nat, end1: nat, end2: nat, r: Ordering)
    requires n == SepRun(x) == SepRun(y) && n < |x| && n < |y|
    requires end1 == n + KindRun(x[n..], Digit(x[n])) && end2 == n + KindRun(y[n..], Digit(x[n])) && end2 > n
    requires r == CompareText(Digit(x[n]), x[n..end1], y[n..end2])
    ensures n < end1
    ensures Compare(x, y) == if r == Equal then Compare(x[end1..], y[end2..]) else r
  {
    RunToken(x, n, Digit(x[n]), end1);
    RunToken(y, n, Digit(x[n]), end2);
    var t1, t2 := Token(n, Digit(x[n]), x[n..end1]), Token(n, Digit(x[n]), y[n..end2]);
    SameShape(t1, t2, r);
    GoOn(x, y, t1, t2, x[end1..], y[end2..]);
  }

  lemma SameShape(t1: Token, t2: Token, r: Ordering)
    requires t1.sep == t2.sep && t1.numeric == t2.numeric && r == CompareText(t1.numeric, t1.text, t2.text)
    ensures CompareToken(t1, t2) == r
  {
  }

  lemma RunToken(x: Bytes, n: nat, numeric: bool, end: nat)
    requires n == SepRun(x) < |x| && end == n + KindRun(x[n..], numeric)
    requires end > n || numeric == Digit(x[n])
    ensures n < end <= |x| && FirstToken(x) == (Token(n, numeric, x[n..end]), x[end..])
  {
    assert x[n..][0] == x[n] && Alnum(x[n]);
  }

  lemma GoOn(x: Bytes, y: Bytes, t1: Token, t2: Token, x': Bytes, y': Bytes)
    requires SepRun(x) < |x| && SepRun(y) < |y|
    requires FirstToken(x) == (t1, x') && FirstToken(y) == (t2, y')
    ensures Compare(x, y) == if CompareToken(t1, t2) == Equal then Compare(x', y') else CompareToken(t1, t2)
  {
    BothGoOn(x, y);
  }

  method CompareSegments(numeric: bool, x: Bytes, y: Bytes) returns (r: Ordering)
    ensures r == CompareText(numeric, x, y)
  {
    if numeric {
      var x1 := SkipZeros(x);
      var y1 := SkipZeros(y);
      if |x1| != |y1| {
        return Natural(|x1|, |y1|);
      }
      r := CompareBytes(x1, y1);
    } else {
      r := CompareBytes(x, y);
    }
  }

  /** What is left when a cursor reached its end. */
  function Leftover(rest1: Bytes, rest2: Bytes): (r: Ordering) {
    if rest1 == [] && rest2 == [] then Equal
    else if (rest1 == [] && !(rest2 != [] && Alpha(rest2[0]))) || (rest1 != [] && Alpha(rest1[0])) then Less
    else Greater
  }

  lemma {:induction false} LexReflexive(x: Bytes)
    ensures Lex(x, x) == Equal
  {
    if x != [] {
      LexReflexive(x[1..]);
    }
  }

  lemma {:induction false} CompareReflexive(ts: seq<Token>, trail: nat)
    ensures CompareTokens(ts, trail, ts, trail) == Equal
  {
    if ts != [] {
      LexReflexive(ts[0].text);
      LexReflexive(StripZeros(ts[0].text));
      CompareReflexive(ts[1..], trail);
    }
  }
}
