/**
 * What the version comparison means for the text it reads: numbers by value,
 * letters byte by byte, and which of separators, kinds and endings decides.
 */
module VersionMeaning {
  import opened Basics
  import opened Versions
  import opened VersionOrder

  /** The bytes that make up runs. */
  lemma RunBytes(c: byte)
    ensures Digit(c) <==> '0' <= c as char <= '9'
    ensures Alpha(c) <==> 'a' <= c as char <= 'z' || 'A' <= c as char <= 'Z'
  {
  }

  // ------------------------------------------------------------------ runs of digits, by value

  function Pow10(n: nat): (r: nat)
    ensures r > 0
  {
    if n == 0 then 1 else 10 * Pow10(n - 1)
  }

  /** The number that digits spell, the most significant first. */
  function Number(x: Bytes): (n: nat)
    requires AllDigit(x)
  {
    if x == [] then 0 else (x[0] - 48) * Pow10(|x| - 1) + Number(x[1..])
  }

  lemma {:induction false} NumberIsSmall(x: Bytes)
    requires AllDigit(x)
    ensures Number(x) < Pow10(|x|)
  {
    if x != [] {
      NumberIsSmall(x[1..]);
      DigitInFront(x[0] - 48, Pow10(|x| - 1), Number(x[1..]));
    }
  }

  lemma DigitInFront(d: nat, p: nat, a: nat)
    requires d <= 9 && a < p
    ensures d * p + a < 10 * p
  {
    assert d * p <= 9 * p;
  }

  lemma NumberIsLarge(x: Bytes)
    requires AllDigit(x) && x != [] && x[0] != 48
    ensures Number(x) >= Pow10(|x| - 1)
  {
    var d, p := x[0] - 48, Pow10(|x| - 1);
    assert d * p >= p;
  }

  lemma {:induction false} PowGrows(m: nat, n: nat)
    requires m <= n
    ensures Pow10(m) <= Pow10(n)
  {
    if m < n {
      PowGrows(m, n - 1);
    }
  }

  lemma {:induction false} ZerosDoNotCount(x: Bytes)
    requires AllDigit(x)
    ensures AllDigit(StripZeros(x)) && Number(StripZeros(x)) == Number(x)
    ensures StripZeros(x) != [] ==> StripZeros(x)[0] != 48
  {
    if x != [] && x[0] == 48 {
      ZerosDoNotCount(x[1..]);
    }
  }

  /** Digit by digit, of the same length. */
  lemma {:induction false} LexIsNumeric(x: Bytes, y: Bytes)
    requires AllDigit(x) && AllDigit(y) && |x| == |y|
    ensures Lex(x, y) == Natural(Number(x), Number(y))
  {
    if x != [] {
      LexIsNumeric(x[1..], y[1..]);
      NumberIsSmall(x[1..]);
      NumberIsSmall(y[1..]);
      Leading(x[0] - 48, y[0] - 48, Pow10(|x| - 1), Number(x[1..]), Number(y[1..]));
    }
  }

  lemma LeadingLess(d: nat, e: nat, p: nat, a: nat, b: nat)
    requires d < e && a < p
    ensures d * p + a < e * p + b
  {
    assert (d + 1) * p <= e * p;
    assert (d + 1) * p == d * p + p;
  }

  lemma Leading(d: nat, e: nat, p: nat, a: nat, b: nat)
    requires a < p && b < p
    ensures Natural(d * p + a, e * p + b) == Natural(d, e).Then(Natural(a, b))
  {
    if d < e {
      LeadingLess(d, e, p, a, b);
    } else if e < d {
      LeadingLess(e, d, p, b, a);
    }
  }

  lemma DigitsByValue(x: Bytes, y: Bytes)
    requires AllDigit(x) && AllDigit(y)
    ensures CompareText(true, x, y) == Natural(Number(x), Number(y))
  {
    var a, b := StripZeros(x), StripZeros(y);
    ZerosDoNotCount(x);
    ZerosDoNotCount(y);
    if |a| == |b| {
      LexIsNumeric(a, b);
    } else if |a| < |b| {
      ShorterIsSmaller(a, b);
    } else {
      ShorterIsSmaller(b, a);
    }
  }

  lemma ShorterIsSmaller(a: Bytes, b: Bytes)
    requires AllDigit(a) && AllDigit(b) && |a| < |b| && b[0] != 48
    ensures Number(a) < Number(b)
  {
    NumberIsSmall(a);
    NumberIsLarge(b);
    PowGrows(|a|, |b| - 1);
  }

  // ------------------------------------------------------------------ runs of letters, byte by byte

  /** The first differing byte decides. */
  lemma {:induction false} FirstDifference(x: Bytes, y: Bytes, k: nat)
    requires k < |x| && k < |y| && x[..k] == y[..k] && x[k] != y[k]
    ensures Lex(x, y) == if x[k] < y[k] then Less else Greater
  {
    if k > 0 {
      assert x[0] == x[..k][0] == y[..k][0] == y[0];
      assert x[1..][..k - 1] == x[..k][1..] && y[1..][..k - 1] == y[..k][1..];
      FirstDifference(x[1..], y[1..], k - 1);
    }
  }

  /** A proper prefix is older. */
  lemma {:induction false} PrefixIsOlder(x: Bytes, y: Bytes)
    requires x <= y && x != y
    ensures Lex(x, y) == Less
  {
    if x != [] {
      assert x[1..] <= y[1..];
      PrefixIsOlder(x[1..], y[1..]);
    }
  }

  // ------------------------------------------------------------------ runs inside a version

  predicate AllKind(x: Bytes, numeric: bool) { forall i :: 0 <= i < |x| ==> OfKind(x[i], numeric) }

  predicate NoRun(e: Bytes) { forall i :: 0 <= i < |e| ==> !Alnum(e[i]) }

  predicate StartsWith(u: Bytes, numeric: bool) { u != [] && OfKind(u[0], numeric) }

  predicate EndsWith(p: Bytes, numeric: bool) { p != [] && OfKind(p[|p| - 1], numeric) }

  lemma {:induction false} NoRunIsSeparators(e: Bytes, u: Bytes)
    requires NoRun(e) && (u == [] || Alnum(u[0]))
    ensures SepRun(e + u) == |e|
  {
    if e == [] {
      assert e + u == u;
    } else {
      NoRunIsSeparators(e[1..], u);
      assert (e + u)[1..] == e[1..] + u;
    }
  }

  lemma {:induction false} KindRunEnds(x: Bytes, u: Bytes, numeric: bool)
    requires AllKind(x, numeric) && !StartsWith(u, numeric)
    ensures KindRun(x + u, numeric) == |x|
  {
    if x == [] {
      assert x + u == u;
    } else {
      KindRunEnds(x[1..], u, numeric);
      assert (x + u)[1..] == x[1..] + u;
    }
  }

  /** The run that stands at `n`. */
  lemma RunThere(s: Bytes, n: nat, x: Bytes, u: Bytes, numeric: bool)
    requires n < |s| && s[n..] == x + u && x != [] && AllKind(x, numeric) && !StartsWith(u, numeric)
    ensures RunAt(s, n) == |x| && Cut(s, n, |x|) == (Token(n, numeric, x), u)
  {
    var t := x + u;
    assert s[n] == t[0] == x[0] && OfKind(x[0], numeric) && Digit(x[0]) == numeric;
    KindRunEnds(x, u, numeric);
    assert s[n..n + |x|] == t[..|x|] == x;
    assert s[n + |x|..] == t[|x|..] == u;
  }

  /** Separators, a run, and what does not belong to it. */
  lemma RunFirst(e: Bytes, x: Bytes, u: Bytes, numeric: bool, s: Bytes)
    requires s == e + (x + u) && NoRun(e) && x != [] && AllKind(x, numeric) && !StartsWith(u, numeric)
    ensures SepRun(s) == |e| < |s| && FirstToken(s) == (Token(|e|, numeric, x), u)
  {
    var t := x + u;
    assert OfKind(x[0], numeric) && t[0] == x[0];
    NoRunIsSeparators(e, t);
    assert s[|e|..] == t;
    RunThere(s, |e|, x, u, numeric);
  }

  /** A string up to its trailing separators, and those. */
  lemma {:induction false} CutSeparators(p: Bytes) returns (q: Bytes, e: Bytes)
    ensures p == q + e && NoRun(e) && (q == [] || Alnum(q[|q| - 1]))
  {
    if p == [] || Alnum(p[|p| - 1]) {
      q, e := p, [];
    } else {
      var f;
      q, f := CutSeparators(p[..|p| - 1]);
      e := f + [p[|p| - 1]];
    }
  }

  /** No run goes on from the end of `q` into `x`. */
  predicate RunsApart(q: Bytes, x: Bytes) {
    q == [] || (Alnum(q[|q| - 1]) && !StartsWith(x, Digit(q[|q| - 1])))
  }

  /** A string whose first run is its last. */
  lemma OnlyRun(q: Bytes, n: nat, numeric: bool, run: Bytes)
    requires n == SepRun(q) < |q| && FirstToken(q).1 == [] && numeric == Digit(q[n]) && run == q[n..]
    ensures FirstToken(q).0 == Token(n, numeric, run) && AllKind(run, numeric) && run != []
    ensures OfKind(q[|q| - 1], numeric)
  {
    assert q[n..n + RunAt(q, n)] == run && KindRun(run, numeric) == |run|;
    RunIsOfKind(run, numeric);
    assert run[|run| - 1] == q[|q| - 1];
  }

  lemma LastRun(q: Bytes, x: Bytes)
    requires q != [] && RunsApart(q, x) && SepRun(q) < |q| && FirstToken(q).1 == []
    ensures SepRun(q + x) == SepRun(q) && FirstToken(q + x) == (FirstToken(q).0, x)
  {
    var n := SepRun(q);
    var numeric, run, s := Digit(q[n]), q[n..], q + x;
    OnlyRun(q, n, numeric, run);
    StaysApart(q[|q| - 1], x, numeric);
    SepRunPrefix(q, s);
    AppendRest(q, x, n);
    RunThere(s, n, run, x, numeric);
  }

  lemma StaysApart(c: byte, x: Bytes, numeric: bool)
    requires OfKind(c, numeric) && !StartsWith(x, Digit(c))
    ensures !StartsWith(x, numeric)
  {
  }

  lemma {:induction false} RunIsOfKind(run: Bytes, numeric: bool)
    requires KindRun(run, numeric) == |run|
    ensures AllKind(run, numeric)
  {
    if run != [] {
      RunIsOfKind(run[1..], numeric);
      assert forall i :: 0 < i < |run| ==> run[i] == run[1..][i - 1];
    }
  }

  lemma EndsInRun(q: Bytes)
    requires q != [] && Alnum(q[|q| - 1])
    ensures SepRun(q) < |q|
  {
    if SepRun(q) == |q| {
      SeparatorsOnly(q);
    }
  }

  lemma {:induction false} SeparatorsOnly(q: Bytes)
    requires SepRun(q) == |q|
    ensures NoRun(q)
  {
    if q != [] {
      SeparatorsOnly(q[1..]);
      assert forall i :: 0 < i < |q| ==> q[i] == q[1..][i - 1];
    }
  }

  /** The tokens of a string cut where no run goes on. */
  lemma {:induction false} TokensApart(q: Bytes, x: Bytes)
    requires x != [] && RunsApart(q, x)
    ensures Tokens(q + x) == Tokens(q) + Tokens(x) && Trail(q + x) == Trail(x)
    decreases |q|
  {
    if q == [] {
      assert q + x == x;
      assert Tokens(q) == [];
    } else {
      EndsInRun(q);
      var (t, rest) := FirstToken(q);
      TokensOfFirst(q, t, rest);
      if rest == [] {
        LastRun(q, x);
        TokensOfFirst(q + x, t, x);
        assert Tokens([]) == [];
      } else {
        assert rest[|rest| - 1] == q[|q| - 1];
        TokensApart(rest, x);
        FirstTokenAppend(q, x, t, rest);
        TokensOfFirst(q + x, t, rest + x);
        Associative([t], Tokens(rest), Tokens(x));
      }
    }
  }

  /** What the rest of two versions says once the runs before it are equal. */
  function CompareRest(u: Bytes, v: Bytes): (r: Ordering) {
    CompareTokens(Tokens(u), Trail(u), Tokens(v), Trail(v))
  }

  lemma ApartBefore(q: Bytes, e: Bytes, x: Bytes, u: Bytes, numeric: bool, t: Bytes)
    requires t == e + (x + u) && NoRun(e) && (q == [] || Alnum(q[|q| - 1]))
    requires x != [] && OfKind(x[0], numeric) && !EndsWith(q + e, numeric)
    ensures t != [] && RunsApart(q, t)
  {
    if e == [] {
      assert t == x + u && t[0] == x[0];
      assert q + e == q;
    } else {
      assert t[0] == e[0];
    }
  }

  lemma TokensAfter(q: Bytes, e: Bytes, x: Bytes, u: Bytes, numeric: bool, s: Bytes)
    requires s == (q + e) + (x + u) && NoRun(e) && (q == [] || Alnum(q[|q| - 1]))
    requires x != [] && AllKind(x, numeric) && !StartsWith(u, numeric) && !EndsWith(q + e, numeric)
    ensures Tokens(s) == Tokens(q) + ([Token(|e|, numeric, x)] + Tokens(u)) && Trail(s) == Trail(u)
  {
    var t := e + (x + u);
    Associative(q, e, x + u);
    ApartBefore(q, e, x, u, numeric, t);
    RunFirst(e, x, u, numeric, t);
    TokensOfFirst(t, Token(|e|, numeric, x), u);
    TokensApart(q, t);
  }

  /** Lists that agree up to a token compare as those tokens do, then as what follows. */
  lemma TokensDecide(ts: seq<Token>, a: Token, at: seq<Token>, ta: nat, b: Token, bt: seq<Token>, tb: nat)
    ensures CompareTokens(ts + ([a] + at), ta, ts + ([b] + bt), tb) ==
            CompareToken(a, b).Then(CompareTokens(at, ta, bt, tb))
  {
    SharedTokens(ts, [a] + at, ta, [b] + bt, tb);
    assert ([a] + at)[1..] == at && ([b] + bt)[1..] == bt;
  }

  /** Two versions that agree up to a run: the run decides, and if it is equal the rest. */
  lemma RunsDecide(p: Bytes, x: Bytes, u: Bytes, m: bool, y: Bytes, v: Bytes, n: bool)
    requires x != [] && AllKind(x, m) && !StartsWith(u, m) && !EndsWith(p, m)
    requires y != [] && AllKind(y, n) && !StartsWith(v, n) && !EndsWith(p, n)
    ensures Compare(p + (x + u), p + (y + v)) ==
            (if m != n then (if m then Greater else Less) else CompareText(m, x, y)).Then(CompareRest(u, v))
  {
    var q, e := CutSeparators(p);
    TokensAfter(q, e, x, u, m, p + (x + u));
    TokensAfter(q, e, y, v, n, p + (y + v));
    var a, b := Token(|e|, m, x), Token(|e|, n, y);
    TokensDecide(Tokens(q), a, Tokens(u), Trail(u), b, Tokens(v), Trail(v));
  }

  // ------------------------------------------------------------------ the order, on the text

  /**
   * Two numbers in the same place compare by their value, leading zeros or not,
   * whatever follows; equal ones leave it to what follows.
   */
  lemma NumbersByValue(p: Bytes, x: Bytes, u: Bytes, y: Bytes, v: Bytes)
    requires x != [] && y != [] && AllDigit(x) && AllDigit(y) && !EndsWith(p, true)
    requires !StartsWith(u, true) && !StartsWith(v, true)
    ensures Number(x) < Number(y) ==> Compare(p + (x + u), p + (y + v)) == Less
    ensures Number(x) > Number(y) ==> Compare(p + (x + u), p + (y + v)) == Greater
    ensures Number(x) == Number(y) ==> Compare(p + (x + u), p + (y + v)) == CompareRest(u, v)
  {
    RunsDecide(p, x, u, true, y, v, true);
    DigitsByValue(x, y);
  }

  /** Two words in the same place: the first differing byte decides, and a proper prefix is older. */
  lemma WordsByteByByte(p: Bytes, x: Bytes, u: Bytes, y: Bytes, v: Bytes, k: nat)
    requires x != [] && y != [] && AllKind(x, false) && AllKind(y, false) && !EndsWith(p, false)
    requires !StartsWith(u, false) && !StartsWith(v, false)
    requires k < |y| && k <= |x| && x[..k] == y[..k] && (k < |x| ==> x[k] < y[k])
    ensures Compare(p + (x + u), p + (y + v)) == Less
  {
    RunsDecide(p, x, u, false, y, v, false);
    if k < |x| {
      FirstDifference(x, y, k);
    } else {
      assert x == x[..k];
      PrefixIsOlder(x, y);
    }
  }

  /** A number is newer than a word in the same place. */
  lemma NumbersBeatWords(p: Bytes, x: Bytes, u: Bytes, y: Bytes, v: Bytes)
    requires x != [] && y != [] && AllDigit(x) && AllKind(y, false) && !EndsWith(p, true) && !EndsWith(p, false)
    requires !StartsWith(u, true) && !StartsWith(v, false)
    ensures Compare(p + (x + u), p + (y + v)) == Greater
  {
    RunsDecide(p, x, u, true, y, v, false);
  }

  /** More separators before the next run are newer, whatever the run. */
  lemma MoreSeparatorsAreNewer(q: Bytes, d: Bytes, x: Bytes, u: Bytes, m: bool, e: Bytes, y: Bytes, v: Bytes, n: bool)
    requires q == [] || Alnum(q[|q| - 1])
    requires NoRun(d) && NoRun(e) && |d| < |e|
    requires x != [] && AllKind(x, m) && !StartsWith(u, m) && !EndsWith(q + d, m)
    requires y != [] && AllKind(y, n) && !StartsWith(v, n)
    ensures Compare((q + d) + (x + u), (q + e) + (y + v)) == Less
  {
    assert !Alnum(e[|e| - 1]) && (q + e)[|q + e| - 1] == e[|e| - 1];
    assert !EndsWith(q + e, n);
    var s, t := (q + d) + (x + u), (q + e) + (y + v);
    TokensAfter(q, d, x, u, m, s);
    TokensAfter(q, e, y, v, n, t);
    TokensDecide(Tokens(q), Token(|d|, m, x), Tokens(u), Trail(u), Token(|e|, n, y), Tokens(v), Trail(v));
  }

  /**
   * A version against itself with more behind it, neither ending in a separator
   * where they part: older, unless the addition is a word right behind, which marks
   * something before the release.
   */
  lemma LongerIsNewer(q: Bytes, e: Bytes, x: Bytes, u: Bytes, numeric: bool)
    requires q == [] || Alnum(q[|q| - 1])
    requires NoRun(e) && x != [] && AllKind(x, numeric) && !StartsWith(u, numeric) && !EndsWith(q + e, numeric)
    ensures Compare(q, (q + e) + (x + u)) == if !numeric && e == [] then Greater else Less
  {
    TokensAfter(q, e, x, u, numeric, (q + e) + (x + u));
    TrailOfRun(q);
    assert Tokens(q) + [] == Tokens(q);
    SharedTokens(Tokens(q), [], Trail(q), [Token(|e|, numeric, x)] + Tokens(u), Trail(u));
  }

  lemma {:induction false} TrailOfRun(q: Bytes)
    requires q == [] || Alnum(q[|q| - 1])
    ensures Trail(q) == 0
    decreases |q|
  {
    if q != [] {
      EndsInRun(q);
      var (t, rest) := FirstToken(q);
      TokensOfFirst(q, t, rest);
      assert rest != [] ==> rest[|rest| - 1] == q[|q| - 1];
      TrailOfRun(rest);
    }
  }

  // ------------------------------------------------------------------ where a version is cut

  lemma {:induction false} DashIs(s: Bytes, i: nat)
    requires i < |s| && s[i] == DASH && DASH !in s[i + 1..]
    ensures LastDash(s) == Some(i)
  {
    if i < |s| - 1 {
      var front := s[..|s| - 1];
      assert s[i + 1..][|s| - i - 2] == s[|s| - 1];
      assert front[i + 1..] == s[i + 1..][..|s| - i - 2];
      DashIs(front, i);
    }
  }

  lemma DashSplit(v: Bytes, r: Bytes)
    requires DASH !in r
    ensures LastDash(v + ([DASH] + r)) == Some(|v|)
  {
    var s := v + ([DASH] + r);
    assert s[|v| + 1..] == r;
    DashIs(s, |v|);
  }

  /** What follows the epoch: the version, and the release behind the last dash. */
  function AfterEpoch(epoch: Bytes, rest: Bytes): (v: Evr) {
    var dash := LastDash(rest);
    if dash.Some? then Evr(epoch, rest[..dash.value], Some(rest[dash.value + 1..])) else Evr(epoch, rest, None)
  }

  lemma WithDash(epoch: Bytes, version: Bytes, release: Bytes, rest: Bytes)
    requires rest == version + ([DASH] + release) && DASH !in release
    ensures AfterEpoch(epoch, rest) == Evr(epoch, version, Some(release))
  {
    DashSplit(version, release);
    assert rest[..|version|] == version && rest[|version| + 1..] == release;
  }

  lemma WithEpoch(epoch: Bytes, rest: Bytes, s: Bytes)
    requires AllDigit(epoch) && s == epoch + ([COLON] + rest)
    ensures ParseEvr(s) == AfterEpoch(if epoch == [] then [48] else epoch, rest)
  {
    var tail := [COLON] + rest;
    assert AllKind(epoch, true);
    KindRunEnds(epoch, tail, true);
    assert s[|epoch|] == COLON && s[..|epoch|] == epoch && s[|epoch| + 1..] == rest;
  }

  lemma WithoutEpoch(s: Bytes)
    requires COLON !in s
    ensures ParseEvr(s) == AfterEpoch([48], s)
  {
  }

  /** `epoch:version-release`, the release behind the last dash; a bare colon stands for epoch zero. */
  lemma ParsesWholeVersion(epoch: Bytes, version: Bytes, release: Bytes)
    requires AllDigit(epoch) && DASH !in release
    ensures ParseEvr(epoch + ([COLON] + (version + ([DASH] + release)))) ==
            Evr(if epoch == [] then [48] else epoch, version, Some(release))
  {
    var rest := version + ([DASH] + release);
    WithEpoch(epoch, rest, epoch + ([COLON] + rest));
    WithDash(if epoch == [] then [48] else epoch, version, release, rest);
  }

  /** Without a dash there is no release, and without a colon no epoch. */
  lemma ParsesShortForms(epoch: Bytes, version: Bytes, release: Bytes)
    requires AllDigit(epoch) && DASH !in release
    ensures DASH !in version ==>
              ParseEvr(epoch + ([COLON] + version)) == Evr(if epoch == [] then [48] else epoch, version, None)
    ensures COLON !in version && DASH !in version ==> ParseEvr(version) == Evr([48], version, None)
    ensures COLON !in version && COLON !in release ==>
              ParseEvr(version + ([DASH] + release)) == Evr([48], version, Some(release))
  {
    WithEpoch(epoch, version, epoch + ([COLON] + version));
    if COLON !in version {
      WithoutEpoch(version);
      if COLON !in release {
        var s := version + ([DASH] + release);
        WithoutEpoch(s);
        WithDash([48], version, release, s);
      }
    }
  }
}
