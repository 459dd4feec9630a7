/** When the version comparison is an order, and where it is not. */
module VersionOrder {
  import opened Basics
  import opened Versions

  // ------------------------------------------------------------------ swapping the arguments

  lemma {:induction false} LexFlips(x: Bytes, y: Bytes)
    ensures Lex(y, x) == Lex(x, y).Flip()
  {
    if x != [] && y != [] {
      LexFlips(x[1..], y[1..]);
    }
  }

  lemma TokenFlips(a: Token, b: Token)
    ensures CompareToken(b, a) == CompareToken(a, b).Flip()
  {
    LexFlips(a.text, b.text);
    LexFlips(StripZeros(a.text), StripZeros(b.text));
  }

  lemma {:induction false} TokensFlip(a: seq<Token>, ta: nat, b: seq<Token>, tb: nat)
    ensures CompareTokens(b, tb, a, ta) == CompareTokens(a, ta, b, tb).Flip()
  {
    if a != [] && b != [] {
      TokenFlips(a[0], b[0]);
      TokensFlip(a[1..], ta, b[1..], tb);
    }
  }

  /** Swapping the arguments reverses the result, for all strings. */
  lemma CompareFlips(a: Bytes, b: Bytes)
    ensures Compare(b, a) == Compare(a, b).Flip()
  {
    TokensFlip(Tokens(a), Trail(a), Tokens(b), Trail(b));
  }

  // ------------------------------------------------------------------ transitivity

  /** What three comparisons of a total preorder satisfy. */
  predicate Consistent(xy: Ordering, yz: Ordering, xz: Ordering) {
    && (xy == Equal ==> xz == yz)
    && (yz == Equal ==> xz == xy)
    && (xy == yz ==> xz == xy)
  }

  lemma {:induction false} LexOrders(x: Bytes, y: Bytes, z: Bytes)
    ensures Consistent(Lex(x, y), Lex(y, z), Lex(x, z))
  {
    if x != [] && y != [] && z != [] {
      LexOrders(x[1..], y[1..], z[1..]);
    }
  }

  lemma TextOrders(numeric: bool, x: Bytes, y: Bytes, z: Bytes)
    ensures Consistent(CompareText(numeric, x, y), CompareText(numeric, y, z), CompareText(numeric, x, z))
  {
    LexOrders(x, y, z);
    LexOrders(StripZeros(x), StripZeros(y), StripZeros(z));
  }

  lemma TokenOrders(a: Token, b: Token, c: Token)
    ensures Consistent(CompareToken(a, b), CompareToken(b, c), CompareToken(a, c))
  {
    TextOrders(a.numeric, a.text, b.text, c.text);
  }

  /** On lists without trailing separators the order is a total preorder. */
  lemma {:induction false} TokensOrder(a: seq<Token>, b: seq<Token>, c: seq<Token>)
    ensures Consistent(CompareTokens(a, 0, b, 0), CompareTokens(b, 0, c, 0), CompareTokens(a, 0, c, 0))
  {
    if a != [] && b != [] && c != [] {
      TokenOrders(a[0], b[0], c[0]);
      TokensOrder(a[1..], b[1..], c[1..]);
    }
  }

  lemma CompareOrders(x: Bytes, y: Bytes, z: Bytes)
    requires Trail(x) == 0 && Trail(y) == 0 && Trail(z) == 0
    ensures Consistent(Compare(x, y), Compare(y, z), Compare(x, z))
  {
    TokensOrder(Tokens(x), Tokens(y), Tokens(z));
  }

  // ------------------------------------------------------------------ exactly when

  lemma {:induction false} KindRunPrefix(s: Bytes, u: Bytes, numeric: bool)
    requires s <= u && KindRun(s, numeric) < |s|
    ensures KindRun(u, numeric) == KindRun(s, numeric)
  {
    if OfKind(s[0], numeric) {
      KindRunPrefix(s[1..], u[1..], numeric);
    }
  }

  lemma {:induction false} SepRunPrefix(s: Bytes, u: Bytes)
    requires s <= u && SepRun(s) < |s|
    ensures SepRun(u) == SepRun(s)
  {
    if !Alnum(s[0]) {
      SepRunPrefix(s[1..], u[1..]);
    }
  }

  lemma RunAtPrefix(s: Bytes, u: Bytes, n: nat)
    requires s <= u && n < |s| && RunAt(s, n) < |s| - n
    ensures RunAt(u, n) == RunAt(s, n)
  {
    assert s[n..] <= u[n..] && u[n] == s[n];
    KindRunPrefix(s[n..], u[n..], Digit(s[n]));
  }

  lemma CutPrefix(s: Bytes, u: Bytes, n: nat, k: nat)
    requires s <= u && n < |s| && k <= |s| - n
    ensures Cut(u, n, k) == (Cut(s, n, k).0, u[n + k..])
  {
    assert u[n] == s[n];
    assert u[n..n + k] == s[n..n + k];
  }

  /** More text at the end leaves a first token that does not end the string alone. */
  lemma FirstTokenPrefix(s: Bytes, u: Bytes, n: nat, k: nat)
    requires s <= u && n == SepRun(s) && n < |s| && k == RunAt(s, n) && n + k < |s|
    ensures SepRun(u) == n && RunAt(u, n) == k
    ensures FirstToken(u) == (FirstToken(s).0, u[n + k..])
  {
    SepRunPrefix(s, u);
    RunAtPrefix(s, u, n);
    CutPrefix(s, u, n, k);
  }

  lemma TokensOfFirst(s: Bytes, t: Token, rest: Bytes)
    requires SepRun(s) < |s| && FirstToken(s) == (t, rest)
    ensures Tokens(s) == [t] + Tokens(rest) && Trail(s) == Trail(rest)
  {
  }

  lemma FirstTokenAppend(s: Bytes, tail: Bytes, t: Token, rest: Bytes)
    requires SepRun(s) < |s| && FirstToken(s) == (t, rest) && rest != []
    ensures SepRun(s + tail) < |s + tail| && FirstToken(s + tail) == (t, rest + tail)
  {
    var n := SepRun(s);
    var k := RunAt(s, n);
    FirstTokenPrefix(s, s + tail, n, k);
    AppendRest(s, tail, n + k);
  }

  lemma AppendRest(s: Bytes, tail: Bytes, i: nat)
    requires i <= |s|
    ensures (s + tail)[i..] == s[i..] + tail
  {
  }

  /** The separators a string ends in. */
  function Ending(s: Bytes): (e: Bytes)
    ensures |e| == Trail(s) && SepRun(e) == |e|
    decreases |s|
  {
    if SepRun(s) == |s| then s else Ending(FirstToken(s).1)
  }

  /** A string that ends in separators keeps its tokens when continued; the separators count for the next. */
  lemma {:induction false} Continue(s: Bytes, tail: Bytes)
    requires Trail(s) > 0
    ensures Tokens(s + tail) == Tokens(s) + Tokens(Ending(s) + tail)
    ensures Trail(s + tail) == Trail(Ending(s) + tail)
    decreases |s|
  {
    if SepRun(s) < |s| {
      var (t, rest) := FirstToken(s);
      TokensOfFirst(s, t, rest);
      Continue(rest, tail);
      FirstTokenAppend(s, tail, t, rest);
      TokensOfFirst(s + tail, t, rest + tail);
      Associative([t], Tokens(rest), Tokens(Ending(s) + tail));
    }
  }

  lemma {:induction false} SepRunAll(e: Bytes, tail: Bytes)
    requires SepRun(e) == |e|
    ensures SepRun(e + tail) == |e| + SepRun(tail)
  {
    if e == [] {
      assert e + tail == tail;
    } else {
      SepRunAll(e[1..], tail);
      assert (e + tail)[1..] == e[1..] + tail;
    }
  }

  lemma SingleRun(c: byte)
    requires Alnum(c)
    ensures KindRun([c], Digit(c)) == 1
  {
    var one: Bytes := [c];
    assert one[1..] == [];
  }

  /** Separators, then one run, then nothing. */
  lemma OneRun(e: Bytes, c: byte)
    requires SepRun(e) == |e| && Alnum(c)
    ensures Tokens(e + [c]) == [Token(|e|, Digit(c), [c])] && Trail(e + [c]) == 0
  {
    SepRunAll(e, [c]);
    AppendOne(e + [c], |e|, c);
    LastToken(e + [c], Token(|e|, Digit(c), [c]));
  }

  lemma AppendOne(s: Bytes, n: nat, c: byte)
    requires |s| == n + 1 && s[n] == c && Alnum(c) && SepRun(s) == n
    ensures FirstToken(s) == (Token(n, Digit(c), [c]), [])
  {
    assert s[n..] == [c];
    SingleRun(c);
    assert RunAt(s, n) == 1;
    assert s[n..n + 1] == [c] && s[n + 1..] == [];
  }

  lemma LastToken(s: Bytes, t: Token)
    requires SepRun(s) < |s| && FirstToken(s) == (t, [])
    ensures Tokens(s) == [t] && Trail(s) == 0
  {
  }

  /** What continuing with one more run, or with one more separator, adds. */
  lemma ContinueRun(x: Bytes, c: byte)
    requires Trail(x) > 0 && Alnum(c)
    ensures Tokens(x + [c]) == Tokens(x) + [Token(Trail(x), Digit(c), [c])] && Trail(x + [c]) == 0
  {
    Continue(x, [c]);
    OneRun(Ending(x), c);
  }

  lemma ContinueSep(x: Bytes, sep: byte)
    requires Trail(x) > 0 && !Alnum(sep)
    ensures Tokens(x + [sep]) == Tokens(x) && Trail(x + [sep]) == Trail(x) + 1
  {
    var e := Ending(x);
    Continue(x, [sep]);
    SepRunAll(e, [sep]);
    assert SepRun([sep]) == 1;
    AllSeparators(e + [sep]);
  }

  lemma AllSeparators(s: Bytes)
    requires SepRun(s) == |s|
    ensures Tokens(s) == [] && Trail(s) == |s|
  {
  }

  lemma {:induction false} SharedTokens(ts: seq<Token>, a: seq<Token>, ta: nat, b: seq<Token>, tb: nat)
    ensures CompareTokens(ts + a, ta, ts + b, tb) == CompareTokens(a, ta, b, tb)
  {
    if ts == [] {
      assert ts + a == a && ts + b == b;
    } else {
      LexReflexive(ts[0].text);
      LexReflexive(StripZeros(ts[0].text));
      SharedTokens(ts[1..], a, ta, b, tb);
      assert (ts + a)[1..] == ts[1..] + a && (ts + b)[1..] == ts[1..] + b;
    }
  }

  /** A trailing separator always makes a circle: x is newer than x.a, which is newer than x1, which is newer than x. */
  lemma TrailingSeparatorCircle(x: Bytes) returns (y: Bytes, z: Bytes)
    requires Trail(x) > 0
    ensures Trail(y) == 0 && Trail(z) == 0
    ensures Compare(x, y) == Greater && Compare(y, z) == Greater && Compare(z, x) == Greater
  {
    var dot, one, letter: byte := 46, 49, 97;
    ContinueRun(x, one);
    ContinueSep(x, dot);
    ContinueRun(x + [dot], letter);
    y, z := x + [dot] + [letter], x + [one];
    CircleOfTokens(Tokens(x), Trail(x), one, letter);
  }

  lemma CircleOfTokens(ts: seq<Token>, trail: nat, one: byte, letter: byte)
    requires trail > 0
    ensures var ly, lz := [Token(trail + 1, false, [letter])], [Token(trail, true, [one])];
            && CompareTokens(ts, trail, ts + ly, 0) == Greater
            && CompareTokens(ts + ly, 0, ts + lz, 0) == Greater
            && CompareTokens(ts + lz, 0, ts, trail) == Greater
  {
    var ly, lz := [Token(trail + 1, false, [letter])], [Token(trail, true, [one])];
    assert ts + [] == ts;
    SharedTokens(ts, [], trail, ly, 0);
    SharedTokens(ts, ly, 0, lz, 0);
    SharedTokens(ts, lz, 0, [], trail);
  }

  /**
   * A string compares consistently with all strings that do not end in a
   * separator exactly when it does not end in one itself.
   */
  lemma OrderedExactly(x: Bytes)
    ensures Trail(x) == 0 <==>
            forall y, z :: Trail(y) == 0 && Trail(z) == 0 ==>
              Consistent(Compare(x, y), Compare(y, z), Compare(x, z))
  {
    if Trail(x) == 0 {
      forall y, z | Trail(y) == 0 && Trail(z) == 0
        ensures Consistent(Compare(x, y), Compare(y, z), Compare(x, z))
      {
        CompareOrders(x, y, z);
      }
    } else {
      var y, z := TrailingSeparatorCircle(x);
      CompareFlips(z, x);
      assert !Consistent(Compare(x, y), Compare(y, z), Compare(x, z));
    }
  }

  // ------------------------------------------------------------------ whole versions

  /** `[epoch:]version[-release]`. */
  datatype Evr = Evr(epoch: Bytes, version: Bytes, release: Option<Bytes>)

  const COLON: byte := 58
  const DASH: byte := 45

  function LastDash(s: Bytes): (i: Option<nat>)
    ensures i.Some? ==> i.value < |s| && s[i.value] == DASH && DASH !in s[i.value + 1..]
    ensures i.None? ==> DASH !in s
  {
    if s == [] then None
    else if s[|s| - 1] == DASH then Some(|s| - 1)
    else
      var i := LastDash(s[..|s| - 1]);
      assert s == s[..|s| - 1] + [s[|s| - 1]];
      i
  }

  function ParseEvr(s: Bytes): (v: Evr) {
    var digits := KindRun(s, true);
    var (epoch, rest) :=
      if digits < |s| && s[digits] == COLON
      then (if digits == 0 then [48] else s[..digits], s[digits + 1..])
      else ([48], s);
    var dash := LastDash(rest);
    if dash.Some? then Evr(epoch, rest[..dash.value], Some(rest[dash.value + 1..])) else Evr(epoch, rest, None)
  }

  function CompareEvr(a: Evr, b: Evr): (r: Ordering) {
    Compare(a.epoch, b.epoch)
      .Then(Compare(a.version, b.version))
      .Then(if a.release.Some? && b.release.Some? then Compare(a.release.value, b.release.value) else Equal)
  }

  /** `vercmp`. */
  method Vercmp(a: Bytes, b: Bytes) returns (r: Ordering)
    ensures r == CompareEvr(ParseEvr(a), ParseEvr(b))
  {
    if a == b {
      EvrReflexive(ParseEvr(a));
      return Equal;
    }
    var x, y := ParseEvr(a), ParseEvr(b);
    r := Rpmvercmp(x.epoch, y.epoch);
    if r == Equal {
      r := Rpmvercmp(x.version, y.version);
      if r == Equal && x.release.Some? && y.release.Some? {
        r := Rpmvercmp(x.release.value, y.release.value);
      }
    }
  }

  lemma SelfEqual(s: Bytes)
    ensures Compare(s, s) == Equal
  {
    CompareReflexive(Tokens(s), Trail(s));
  }

  lemma EvrReflexive(v: Evr)
    ensures CompareEvr(v, v) == Equal
  {
    SelfEqual(v.epoch);
    SelfEqual(v.version);
    if v.release.Some? {
      SelfEqual(v.release.value);
    }
  }

  predicate CleanEvr(v: Evr) {
    Trail(v.epoch) == 0 && Trail(v.version) == 0 && (v.release.Some? ==> Trail(v.release.value) == 0)
  }

  /** Swapping two versions reverses the result, for all strings. */
  lemma VercmpFlips(a: Evr, b: Evr)
    ensures CompareEvr(b, a) == CompareEvr(a, b).Flip()
  {
    CompareFlips(a.epoch, b.epoch);
    CompareFlips(a.version, b.version);
    if a.release.Some? && b.release.Some? {
      CompareFlips(a.release.value, b.release.value);
    }
  }

  /** The comparison of two releases; a missing one equals any. */
  function CompareReleases(a: Option<Bytes>, b: Option<Bytes>): (r: Ordering) {
    if a.Some? && b.Some? then Compare(a.value, b.value) else Equal
  }

  /** One release is missing and the other two differ. */
  predicate OneMissing(a: Option<Bytes>, b: Option<Bytes>, c: Option<Bytes>) {
    || (a.None? && b.Some? && c.Some? && Compare(b.value, c.value) != Equal)
    || (b.None? && a.Some? && c.Some? && Compare(a.value, c.value) != Equal)
    || (c.None? && a.Some? && b.Some? && Compare(a.value, b.value) != Equal)
  }

  lemma ReleasesOrder(a: Option<Bytes>, b: Option<Bytes>, c: Option<Bytes>)
    requires (a.Some? ==> Trail(a.value) == 0) && (b.Some? ==> Trail(b.value) == 0) && (c.Some? ==> Trail(c.value) == 0)
    ensures Consistent(CompareReleases(a, b), CompareReleases(b, c), CompareReleases(a, c)) <==> !OneMissing(a, b, c)
  {
    if a.Some? && b.Some? && c.Some? {
      CompareOrders(a.value, b.value, c.value);
    }
  }

  /** What comes first decides unless all three are equal there. */
  lemma ThenExactly(a: Ordering, b: Ordering, c: Ordering, a': Ordering, b': Ordering, c': Ordering)
    requires Consistent(a, b, c)
    ensures Consistent(a', b', c') ==> Consistent(a.Then(a'), b.Then(b'), c.Then(c'))
    ensures a == b == Equal ==> (Consistent(a.Then(a'), b.Then(b'), c.Then(c')) <==> Consistent(a', b', c'))
  {
  }

  function CompareHeads(a: Evr, b: Evr): (r: Ordering) {
    Compare(a.epoch, b.epoch).Then(Compare(a.version, b.version))
  }

  lemma HeadsOrder(a: Evr, b: Evr, c: Evr)
    requires CleanEvr(a) && CleanEvr(b) && CleanEvr(c)
    ensures Consistent(CompareHeads(a, b), CompareHeads(b, c), CompareHeads(a, c))
  {
    CompareOrders(a.epoch, b.epoch, c.epoch);
    CompareOrders(a.version, b.version, c.version);
    ThenExactly(Compare(a.epoch, b.epoch), Compare(b.epoch, c.epoch), Compare(a.epoch, c.epoch),
                Compare(a.version, b.version), Compare(b.version, c.version), Compare(a.version, c.version));
  }

  /** Three versions equal up to the release, of which one is missing while the other two differ. */
  predicate Mixed(a: Evr, b: Evr, c: Evr) {
    && CompareHeads(a, b) == Equal && CompareHeads(b, c) == Equal
    && OneMissing(a.release, b.release, c.release)
  }

  /** Consistency can only fail in the releases, with the heads equal. */
  lemma MissingMatters(h1: Ordering, h2: Ordering, h3: Ordering, r1: Ordering, r2: Ordering, r3: Ordering)
    requires Consistent(h1, h2, h3) && !(h1 == h2 == Equal)
    requires (r1 == Equal && r3 == Equal) || (r1 == Equal && r2 == Equal) || (r2 == Equal && r3 == Equal)
    ensures Consistent(h1.Then(r1), h2.Then(r2), h3.Then(r3))
  {
  }

  /**
   * Three whole versions of which no part ends in a separator are ordered
   * consistently if and only if they are not mixed.
   */
  lemma VercmpExactly(a: Evr, b: Evr, c: Evr)
    requires CleanEvr(a) && CleanEvr(b) && CleanEvr(c)
    ensures Consistent(CompareEvr(a, b), CompareEvr(b, c), CompareEvr(a, c)) <==> !Mixed(a, b, c)
  {
    HeadsOrder(a, b, c);
    ReleasesOrder(a.release, b.release, c.release);
    var h1, h2, h3 := CompareHeads(a, b), CompareHeads(b, c), CompareHeads(a, c);
    var r1, r2, r3 := CompareReleases(a.release, b.release), CompareReleases(b.release, c.release),
                      CompareReleases(a.release, c.release);
    ThenExactly(h1, h2, h3, r1, r2, r3);
    if !(h1 == h2 == Equal) && OneMissing(a.release, b.release, c.release) {
      MissingMatters(h1, h2, h3, r1, r2, r3);
    }
  }

  /** So they are totally preordered when all three carry a release, or none does. */
  lemma VercmpOrders(a: Evr, b: Evr, c: Evr)
    requires CleanEvr(a) && CleanEvr(b) && CleanEvr(c)
    requires a.release.Some? == b.release.Some? == c.release.Some?
    ensures Consistent(CompareEvr(a, b), CompareEvr(b, c), CompareEvr(a, c))
  {
    VercmpExactly(a, b, c);
  }

  /** A version without a release equals that version with any release. */
  lemma MissingReleaseEqualsAll(epoch: Bytes, version: Bytes, r1: Bytes, r2: Bytes)
    ensures var a, b, c := Evr(epoch, version, Some(r1)), Evr(epoch, version, None), Evr(epoch, version, Some(r2));
            && CompareEvr(a, b) == Equal && CompareEvr(b, c) == Equal
            && CompareEvr(a, c) == Compare(r1, r2)
            && (Consistent(CompareEvr(a, b), CompareEvr(b, c), CompareEvr(a, c)) <==> Compare(r1, r2) == Equal)
  {
    SelfEqual(epoch);
    SelfEqual(version);
  }

  // ------------------------------------------------------------------ exactly which versions

  /** Clean, and with a release exactly when `v` has one. */
  predicate CleanLike(v: Evr, u: Evr) { CleanEvr(u) && (u.release.Some? <==> v.release.Some?) }

  predicate AllDigit(s: Bytes) { forall i :: 0 <= i < |s| ==> Digit(s[i]) }

  lemma {:induction false} DigitsRun(s: Bytes)
    requires AllDigit(s)
    ensures KindRun(s, true) == |s|
  {
    if s != [] {
      DigitsRun(s[1..]);
    }
  }

  lemma {:induction false} RunOfDigits(s: Bytes)
    ensures AllDigit(s[..KindRun(s, true)])
  {
    if s != [] && Digit(s[0]) {
      RunOfDigits(s[1..]);
      var n := KindRun(s[1..], true);
      assert s[..n + 1] == [s[0]] + s[1..][..n];
    }
  }

  lemma DigitsAreClean(s: Bytes)
    requires s != [] && AllDigit(s)
    ensures Trail(s) == 0
  {
    DigitsRun(s);
    assert Digit(s[0]) && SepRun(s) == 0;
    assert FirstToken(s).1 == [];
  }

  /** The epoch that parsing yields never ends in a separator. */
  lemma ParsedEpochIsClean(s: Bytes)
    ensures Trail(ParseEvr(s).epoch) == 0
  {
    RunOfDigits(s);
    DigitsAreClean(ParseEvr(s).epoch);
  }

  /** A version that ends in a separator, or whose release does, lies on a circle with two clean ones. */
  lemma UncleanCircle(v: Evr) returns (y: Evr, z: Evr)
    requires Trail(v.epoch) == 0 && !CleanEvr(v)
    ensures CleanLike(v, y) && CleanLike(v, z)
    ensures !Consistent(CompareEvr(v, y), CompareEvr(y, z), CompareEvr(v, z))
  {
    SelfEqual(v.epoch);
    if Trail(v.version) != 0 {
      var b, c := TrailingSeparatorCircle(v.version);
      CompareFlips(c, v.version);
      var release := if v.release.Some? then Some([]) else None;
      y, z := Evr(v.epoch, b, release), Evr(v.epoch, c, release);
    } else {
      SelfEqual(v.version);
      var b, c := TrailingSeparatorCircle(v.release.value);
      CompareFlips(c, v.release.value);
      y, z := Evr(v.epoch, v.version, Some(b)), Evr(v.epoch, v.version, Some(c));
    }
  }

  /**
   * A version compares consistently with all clean ones of its shape if and only
   * if neither it nor its release ends in a separator.
   */
  lemma CleanEvrExactly(v: Evr)
    requires Trail(v.epoch) == 0
    ensures CleanEvr(v) <==>
            forall y, z :: CleanLike(v, y) && CleanLike(v, z) ==>
              Consistent(CompareEvr(v, y), CompareEvr(y, z), CompareEvr(v, z))
  {
    if CleanEvr(v) {
      forall y, z | CleanLike(v, y) && CleanLike(v, z)
        ensures Consistent(CompareEvr(v, y), CompareEvr(y, z), CompareEvr(v, z))
      {
        VercmpOrders(v, y, z);
      }
    } else {
      var y, z := UncleanCircle(v);
      assert CleanLike(v, y) && CleanLike(v, z);
    }
  }
}
