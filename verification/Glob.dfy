/** Patterns whose only metacharacter is `*`, matched with one backtracking point. */
module Glob {
  import opened Basics

  const STAR: byte := 42

  /** What a pattern means: a star stands for any run of bytes. */
  predicate Matches(p: Bytes, t: Bytes)
    decreases |p| + |t|
  {
    if p == [] then t == []
    else if p[0] == STAR then Matches(p[1..], t) || (t != [] && Matches(p, t[1..]))
    else t != [] && p[0] == t[0] && Matches(p[1..], t[1..])
  }

  // ------------------------------------------------------------------ the same, said with fillings

  function Stars(p: Bytes): (n: nat) {
    if p == [] then 0 else Stars(p[1..]) + if p[0] == STAR then 1 else 0
  }

  /** The text a pattern spells when its stars are replaced in order. */
  function Filled(p: Bytes, fill: seq<Bytes>): (t: Bytes)
    requires |fill| == Stars(p)
  {
    if p == [] then []
    else if p[0] == STAR then fill[0] + Filled(p[1..], fill[1..])
    else [p[0]] + Filled(p[1..], fill)
  }

  lemma {:induction false} FilledMatches(p: Bytes, fill: seq<Bytes>)
    requires |fill| == Stars(p)
    ensures Matches(p, Filled(p, fill))
  {
    if p != [] {
      if p[0] == STAR {
        FilledMatches(p[1..], fill[1..]);
        StarAbsorbs(p, fill[0], Filled(p[1..], fill[1..]));
      } else {
        FilledMatches(p[1..], fill);
        assert Filled(p, fill)[1..] == Filled(p[1..], fill);
      }
    }
  }

  lemma {:induction false} StarAbsorbs(p: Bytes, skipped: Bytes, t: Bytes)
    requires p != [] && p[0] == STAR && (Matches(p, t) || Matches(p[1..], t))
    ensures Matches(p, skipped + t)
  {
    if skipped == [] {
      assert skipped + t == t;
    } else {
      StarAbsorbs(p, skipped[1..], t);
      assert (skipped + t)[1..] == skipped[1..] + t;
    }
  }

  lemma {:induction false} MatchFills(p: Bytes, t: Bytes) returns (fill: seq<Bytes>)
    requires Matches(p, t)
    ensures |fill| == Stars(p) && Filled(p, fill) == t
    decreases |p| + |t|
  {
    if p == [] {
      fill := [];
    } else if p[0] == STAR {
      if Matches(p[1..], t) {
        var rest := MatchFills(p[1..], t);
        fill := [[]] + rest;
        assert fill[1..] == rest;
      } else {
        var rest := MatchFills(p, t[1..]);
        fill := [[t[0]] + rest[0]] + rest[1..];
        assert fill[1..] == rest[1..];
        assert t == [t[0]] + t[1..];
      }
    } else {
      fill := MatchFills(p[1..], t[1..]);
      assert t == [t[0]] + t[1..];
    }
  }

  /** A pattern matches exactly the texts it spells under some filling of its stars. */
  lemma MatchesIffFilled(p: Bytes, t: Bytes)
    ensures Matches(p, t) <==> exists fill :: |fill| == Stars(p) && Filled(p, fill) == t
  {
    if Matches(p, t) {
      var fill := MatchFills(p, t);
    }
    forall fill | |fill| == Stars(p) && Filled(p, fill) == t
      ensures Matches(p, t)
    {
      FilledMatches(p, fill);
    }
  }

  // ------------------------------------------------------------------ the last star is enough

  lemma {:induction false} LiteralPrefix(lit: Bytes, q: Bytes, t: Bytes)
    requires STAR !in lit && Matches(lit + q, t)
    ensures |lit| <= |t| && Matches(q, t[|lit|..])
  {
    if lit == [] {
      assert lit + q == q && t[0..] == t;
    } else {
      assert (lit + q)[1..] == lit[1..] + q;
      LiteralPrefix(lit[1..], q, t[1..]);
      assert t[1..][|lit| - 1..] == t[|lit|..];
    }
  }

  /**
   * A star followed by literals and another star: if it can match starting later,
   * then the second star can already match from where the literals ended now.
   */
  lemma {:induction false} LaterStarAbsorbs(lit: Bytes, q: Bytes, t: Bytes, k: nat)
    requires STAR !in lit && q != [] && q[0] == STAR
    requires |lit| + k <= |t|
    requires Matches([STAR] + lit + q, t[k..])
    ensures Matches(q, t[|lit| + k..])
    decreases |t| - k
  {
    var p := [STAR] + lit + q;
    assert p[1..] == lit + q;
    if k < |t| {
      assert t[k..][1..] == t[k + 1..];
    }
    if |lit| + k == |t| && k < |t| {
      TooShort(lit, q, t[k + 1..]);
    }
    if Matches(lit + q, t[k..]) {
      LiteralPrefix(lit, q, t[k..]);
      assert t[k..][|lit|..] == t[|lit| + k..];
    } else {
      LaterStarAbsorbs(lit, q, t, k + 1);
      var here := |lit| + k;
      assert t[here..] == [t[here]] + t[here + 1..];
      StarAbsorbs(q, [t[here]], t[here + 1..]);
    }
  }

  lemma {:induction false} TooShort(lit: Bytes, q: Bytes, t: Bytes)
    requires STAR !in lit && |t| < |lit|
    ensures !Matches([STAR] + lit + q, t)
  {
    var p := [STAR] + lit + q;
    assert p[1..] == lit + q;
    if Matches(lit + q, t) {
      LiteralPrefix(lit, q, t);
    }
    if t != [] {
      TooShort(lit, q, t[1..]);
    }
  }

  /** Where the text may still match, from the two cursors and the last star. */
  ghost predicate StillMatches(p: Bytes, t: Bytes, pi: nat, ti: nat, star: Option<nat>, mark: nat)
    requires pi <= |p| && ti <= |t|
    requires star.Some? ==> star.value < |p| && mark <= |t|
  {
    || Matches(p[pi..], t[ti..])
    || (star.Some? && mark < |t| && Matches(p[star.value..], t[mark + 1..]))
  }

  /** The cursors since the last star: literals that matched byte for byte. */
  ghost predicate SinceStar(p: Bytes, t: Bytes, pi: nat, ti: nat, star: Option<nat>, mark: nat) {
    star.Some? ==>
      && star.value < pi <= |p| && p[star.value] == STAR
      && mark <= ti <= |t| && ti - mark == pi - star.value - 1
      && p[star.value + 1..pi] == t[mark..ti] && STAR !in p[star.value + 1..pi]
  }

  /** Reaching a star makes the previous one unnecessary. */
  lemma NewStar(p: Bytes, t: Bytes, pi: nat, ti: nat, star: Option<nat>, mark: nat)
    requires pi < |p| && ti < |t| && p[pi] == STAR
    requires SinceStar(p, t, pi, ti, star, mark)
    ensures StillMatches(p, t, pi, ti, star, mark)
        ==> StillMatches(p, t, pi + 1, ti, Some(pi), ti)
    ensures StillMatches(p, t, pi + 1, ti, Some(pi), ti) ==> Matches(p[pi..], t[ti..])
  {
    assert p[pi..][1..] == p[pi + 1..] && t[ti..][1..] == t[ti + 1..];
    if star.Some? && mark < |t| && Matches(p[star.value..], t[mark + 1..]) {
      var lit := p[star.value + 1..pi];
      assert p[star.value..] == [STAR] + lit + p[pi..];
      if |lit| + mark + 1 <= |t| {
        LaterStarAbsorbs(lit, p[pi..], t, mark + 1);
        assert |lit| + mark + 1 == ti + 1;
      }
    }
  }

  lemma SameByte(p: Bytes, t: Bytes, pi: nat, ti: nat, star: Option<nat>, mark: nat)
    requires pi < |p| && ti < |t| && p[pi] != STAR && p[pi] == t[ti]
    requires SinceStar(p, t, pi, ti, star, mark)
    ensures Matches(p[pi..], t[ti..]) <==> Matches(p[pi + 1..], t[ti + 1..])
    ensures SinceStar(p, t, pi + 1, ti + 1, star, mark)
  {
    assert p[pi..][1..] == p[pi + 1..] && t[ti..][1..] == t[ti + 1..];
    if star.Some? {
      assert p[star.value + 1..pi + 1] == p[star.value + 1..pi] + [p[pi]];
      assert t[mark..ti + 1] == t[mark..ti] + [t[ti]];
    }
  }

  /** With the text used up, only the rest of the pattern matters. */
  lemma AtEnd(p: Bytes, t: Bytes, pi: nat, star: Option<nat>, mark: nat)
    requires pi <= |p| && SinceStar(p, t, pi, |t|, star, mark)
    ensures StillMatches(p, t, pi, |t|, star, mark) <==> forall i :: pi <= i < |p| ==> p[i] == STAR
  {
    assert t[|t|..] == [];
    OnlyStarsMatchNothing(p[pi..]);
    assert forall i :: pi <= i < |p| ==> p[i] == p[pi..][i - pi];
    if star.Some? && mark < |t| {
      var lit := p[star.value + 1..pi];
      assert p[star.value..] == [STAR] + lit + p[pi..];
      TooShort(lit, p[pi..], t[mark + 1..]);
    }
  }

  lemma Backtrack(p: Bytes, t: Bytes, pi: nat, ti: nat, star: nat, mark: nat)
    requires SinceStar(p, t, pi, ti, Some(star), mark) && ti < |t|
    requires pi == |p| || (p[pi] != STAR && p[pi] != t[ti])
    ensures StillMatches(p, t, pi, ti, Some(star), mark)
        <==> StillMatches(p, t, star + 1, mark + 1, Some(star), mark + 1)
  {
    assert p[star..][1..] == p[star + 1..];
    if mark + 1 < |t| {
      assert t[mark + 1..][1..] == t[mark + 2..];
    }
  }

  lemma {:induction false} OnlyStarsMatchNothing(p: Bytes)
    ensures Matches(p, []) <==> forall i :: 0 <= i < |p| ==> p[i] == STAR
  {
    if p != [] {
      OnlyStarsMatchNothing(p[1..]);
      assert p == [p[0]] + p[1..];
    }
  }

  /** `glob_match`: returns exactly whether the pattern matches, and always returns. */
  method GlobMatch(p: Bytes, t: Bytes) returns (r: bool)
    ensures r <==> Matches(p, t)
  {
    var pi, ti := 0, 0;
    var star: Option<nat> := None;
    var mark := 0;
    assert p[0..] == p && t[0..] == t;
    ghost var wanted := Matches(p, t);
    while ti < |t|
      invariant 0 <= pi <= |p| && 0 <= ti <= |t| && 0 <= mark <= ti
      invariant SinceStar(p, t, pi, ti, star, mark)
      invariant wanted <==> StillMatches(p, t, pi, ti, star, mark)
      decreases |p| - (if star.Some? then star.value else -1), |t| - mark, |t| - ti
    {
      if pi < |p| && p[pi] == STAR {
        NewStar(p, t, pi, ti, star, mark);
        star := Some(pi);
        pi := pi + 1;
        mark := ti;
      } else if pi < |p| && p[pi] == t[ti] {
        SameByte(p, t, pi, ti, star, mark);
        pi := pi + 1;
        ti := ti + 1;
      } else if star.Some? {
        Backtrack(p, t, pi, ti, star.value, mark);
        pi := star.value + 1;
        mark := mark + 1;
        ti := mark;
      } else {
        return false;
      }
    }
    AtEnd(p, t, pi, star, mark);
    ghost var end := pi;
    while pi < |p| && p[pi] == STAR
      invariant end <= pi <= |p|
      invariant forall i :: end <= i < pi ==> p[i] == STAR
    {
      pi := pi + 1;
    }
    r := pi == |p|;
  }
}
