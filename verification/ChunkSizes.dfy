/**
 * Which chunk sizes are read, and as what: every spelling of a number in
 * hexadecimal that Python's `int(token, 16)` takes, and nothing else.
 */
module ChunkSizes {
  import opened Basics
  import opened Chunked

  const LOWER := "0123456789abcdef"
  const UPPER := "0123456789ABCDEF"

  /** The byte is the digit `d`, in either case. */
  predicate IsDigitOf(b: byte, d: nat) {
    d < 16 && (b as char == LOWER[d] || b as char == UPPER[d])
  }

  lemma DigitsExactly(b: byte, d: nat)
    ensures HexDigit(b) == Some(d) <==> IsDigitOf(b, d)
  {
  }

  /** The number that digits make, the most significant first. */
  function Value(ds: seq<nat>): (n: nat) {
    if ds == [] then 0 else 16 * Value(ds[..|ds| - 1]) + ds[|ds| - 1]
  }

  /** The text spells these digits, in either case, single underscores allowed between two. */
  ghost predicate Spells(s: Bytes, ds: seq<nat>)
    decreases |s|
  {
    && s != [] && ds != [] && IsDigitOf(s[|s| - 1], ds[|ds| - 1])
    && var front, more := s[..|s| - 1], ds[..|ds| - 1];
       if more == [] then front == []
       else Spells(front, more)
            || (front != [] && front[|front| - 1] == UNDERSCORE && Spells(front[..|front| - 1], more))
  }

  /** Digits without underscores. */
  lemma {:induction false} PlainSpells(s: Bytes, ds: seq<nat>)
    requires |s| == |ds| > 0 && forall i :: 0 <= i < |s| ==> IsDigitOf(s[i], ds[i])
    ensures Spells(s, ds)
  {
    if |s| > 1 {
      PlainSpells(s[..|s| - 1], ds[..|ds| - 1]);
    }
  }

  lemma DigitAt(s: Bytes, i: nat)
    requires HexDigits(s) && i < |s|
    ensures HexDigit(s[i]).Some? || (s[i] == UNDERSCORE && 0 < i < |s| - 1 && s[i - 1] != UNDERSCORE)
    ensures i == 0 || i == |s| - 1 ==> HexDigit(s[i]).Some?
  {
    assert HexDigit(s[i]).Some? || (s[i] == UNDERSCORE && i > 0 && s[i - 1] != UNDERSCORE);
  }

  /** Digits stay digits with one more behind them, or an underscore and one more. */
  lemma Longer(s: Bytes, tail: Bytes, c: byte, t: Bytes)
    requires HexDigits(s) && HexDigit(c).Some? && (tail == [c] || tail == [UNDERSCORE, c]) && t == s + tail
    ensures HexDigits(t)
  {
    assert HexDigit(UNDERSCORE).None?;
    DigitAt(s, |s| - 1);
    forall i | 0 <= i < |t|
      ensures HexDigit(t[i]).Some? || (t[i] == UNDERSCORE && i > 0 && t[i - 1] != UNDERSCORE)
    {
      if i < |s| {
        DigitAt(s, i);
        assert t[i] == s[i] && (i > 0 ==> t[i - 1] == s[i - 1]);
      } else {
        assert t[i] == tail[i - |s|];
      }
    }
  }

  lemma OneMoreDigit(s: Bytes, c: byte, t: Bytes)
    requires HexDigits(s) && HexDigit(c).Some? && t == s + [c]
    ensures HexDigits(t) && HexValue(t) == 16 * HexValue(s) + HexDigit(c).value
  {
    Longer(s, [c], c, t);
    assert t[..|t| - 1] == s;
  }

  lemma UnderscoreAndDigit(s: Bytes, c: byte, t: Bytes)
    requires HexDigits(s) && HexDigit(c).Some? && t == s + [UNDERSCORE, c]
    ensures HexDigits(t) && HexValue(t) == 16 * HexValue(s) + HexDigit(c).value
  {
    Longer(s, [UNDERSCORE, c], c, t);
    var u := s + [UNDERSCORE];
    assert t[..|t| - 1] == u && u[..|u| - 1] == s;
    assert HexDigit(UNDERSCORE).None?;
    assert HexValue(u) == HexValue(s);
  }

  /** A spelling is read as the number it spells. */
  lemma {:induction false} SpellingIsRead(s: Bytes, ds: seq<nat>)
    requires Spells(s, ds)
    ensures HexDigits(s) && HexValue(s) == Value(ds)
    decreases |s|
  {
    var c, d := s[|s| - 1], ds[|ds| - 1];
    var front, more := s[..|s| - 1], ds[..|ds| - 1];
    DigitsExactly(c, d);
    assert HexDigit(UNDERSCORE).None?;
    if more == [] {
      assert s == [c] && Value(more) == 0;
      assert s[..0] == [];
    } else if Spells(front, more) {
      SpellingIsRead(front, more);
      OneMoreDigit(front, c, s);
    } else {
      var before := front[..|front| - 1];
      SpellingIsRead(before, more);
      assert s == before + [UNDERSCORE, c];
      UnderscoreAndDigit(before, c, s);
    }
  }

  lemma ShorterDigits(s: Bytes, n: nat)
    requires HexDigits(s) && 0 < n < |s| && s[n - 1] != UNDERSCORE
    ensures HexDigits(s[..n])
  {
    forall i | 0 <= i < n
      ensures HexDigit(s[..n][i]).Some? || (s[..n][i] == UNDERSCORE && i > 0 && s[..n][i - 1] != UNDERSCORE)
    {
      DigitAt(s, i);
    }
  }

  /** Whatever is read is a spelling. */
  lemma {:induction false} ReadIsSpelling(s: Bytes) returns (ds: seq<nat>)
    requires HexDigits(s)
    ensures Spells(s, ds)
    decreases |s|
  {
    var n := |s| - 1;
    var c := s[n];
    DigitAt(s, n);
    var d := HexDigit(c).value;
    DigitsExactly(c, d);
    if n > 0 {
      DigitAt(s, n - 1);
    }
    if n == 0 {
      ds := [d];
    } else {
      var m := if s[n - 1] == UNDERSCORE then n - 1 else n;
      ShorterDigits(s, m);
      var more := ReadIsSpelling(s[..m]);
      ds := more + [d];
      assert ds[..|ds| - 1] == more;
      assert s[..n][..m] == s[..m];
    }
  }

  // ------------------------------------------------------------------ signs and prefixes

  predicate IsSign(sign: Bytes) { sign == [] || sign == [43] || sign == [45] }

  /** Nothing, or `0x` in either case with an underscore behind it or not. */
  predicate IsPrefix(prefix: Bytes) {
    || prefix == []
    || (2 <= |prefix| <= 3 && prefix[0] as char == '0' && prefix[1] as char in {'x', 'X'}
        && (|prefix| == 3 ==> prefix[2] == UNDERSCORE))
  }

  function Token(sign: Bytes, prefix: Bytes, digits: Bytes): (t: Bytes) { sign + (prefix + digits) }

  function Signed(sign: Bytes, n: nat): (v: int) { if sign == [45] then -(n as int) else n }

  lemma PlainIsRead(digits: Bytes)
    requires HexDigits(digits)
    ensures HexDigit(digits[0]).Some? && PythonHex(digits) == Some(HexValue(digits))
  {
    DigitAt(digits, 0);
    if |digits| > 1 {
      DigitAt(digits, 1);
    }
  }

  lemma PrefixedIsRead(prefix: Bytes, digits: Bytes, t: Bytes)
    requires IsPrefix(prefix) && prefix != [] && HexDigits(digits) && t == prefix + digits
    ensures HexDigit(t[0]).Some? && PythonHex(t) == Some(HexValue(digits))
  {
    DigitAt(digits, 0);
    assert HexDigit(UNDERSCORE).None?;
    assert t[0] == prefix[0] == 48 && t[1] == prefix[1] && (t[1] == 120 || t[1] == 88) && t[|prefix|..] == digits;
    assert t[2] == if |prefix| == 2 then digits[0] else UNDERSCORE;
  }

  lemma PrefixIsCut(prefix: Bytes, digits: Bytes, t: Bytes)
    requires IsPrefix(prefix) && HexDigits(digits) && t == prefix + digits
    ensures HexDigit(t[0]).Some? && PythonHex(t) == Some(HexValue(digits))
  {
    if prefix == [] {
      assert t == digits;
      PlainIsRead(digits);
    } else {
      PrefixedIsRead(prefix, digits, t);
    }
  }

  lemma SignIsCut(sign: Bytes, t: Bytes, n: nat)
    requires IsSign(sign) && t != [] && HexDigit(t[0]).Some? && PythonHex(t) == Some(n)
    ensures PythonHex(sign + t) == Some(Signed(sign, n))
  {
    if sign == [] {
      assert sign + t == t;
    } else {
      assert (sign + t)[1..] == t && (sign + t)[0] == sign[0];
    }
  }

  /** A token is read as `v`: a sign, a prefix, and a spelling of that number. */
  ghost predicate Reads(t: Bytes, sign: Bytes, prefix: Bytes, digits: Bytes, ds: seq<nat>, v: int) {
    && IsSign(sign) && IsPrefix(prefix) && Spells(digits, ds)
    && t == Token(sign, prefix, digits) && v == Signed(sign, Value(ds))
  }

  lemma TokenIsRead(t: Bytes, sign: Bytes, prefix: Bytes, digits: Bytes, ds: seq<nat>, v: int)
    requires Reads(t, sign, prefix, digits, ds, v)
    ensures PythonHex(t) == Some(v)
  {
    SpellingIsRead(digits, ds);
    PrefixIsCut(prefix, digits, prefix + digits);
    SignIsCut(sign, prefix + digits, HexValue(digits));
  }

  lemma CutSign(t: Bytes) returns (sign: Bytes, u: Bytes)
    ensures IsSign(sign) && t == sign + u
    ensures sign == [] ==> t == [] || (t[0] != 43 && t[0] != 45)
  {
    if t != [] && (t[0] == 43 || t[0] == 45) {
      sign, u := [t[0]], t[1..];
    } else {
      sign, u := [], t;
    }
  }

  lemma CutPrefix(u: Bytes) returns (prefix: Bytes, digits: Bytes)
    requires u == [] || (u[0] != 43 && u[0] != 45)
    requires PythonHex(u).Some?
    ensures IsPrefix(prefix) && HexDigits(digits) && u == prefix + digits && PythonHex(u) == Some(HexValue(digits))
  {
    var prefixed := |u| >= 2 && u[0] == 48 && (u[1] == 120 || u[1] == 88);
    var n := if !prefixed then 0 else if |u| > 2 && u[2] == UNDERSCORE then 3 else 2;
    prefix, digits := u[..n], u[n..];
    assert u == prefix + digits;
  }

  /** A sign in front of something without one only turns its number around. */
  lemma SignedRest(sign: Bytes, u: Bytes)
    requires IsSign(sign) && PythonHex(sign + u).Some?
    requires sign == [] ==> u == [] || (u[0] != 43 && u[0] != 45)
    ensures u != [] && u[0] != 43 && u[0] != 45 && PythonHex(u).Some?
  {
    assert HexDigit(43).None? && HexDigit(45).None?;
    if sign == [] {
      assert sign + u == u;
    } else {
      assert (sign + u)[1..] == u;
      if HexDigits(u) {
        DigitAt(u, 0);
      }
    }
  }

  /** What `PythonHex` takes off the front. */
  lemma CutToken(t: Bytes) returns (sign: Bytes, prefix: Bytes, digits: Bytes)
    requires PythonHex(t).Some?
    ensures IsSign(sign) && IsPrefix(prefix) && HexDigits(digits) && t == Token(sign, prefix, digits)
    ensures PythonHex(t) == Some(Signed(sign, HexValue(digits)))
  {
    var u;
    sign, u := CutSign(t);
    SignedRest(sign, u);
    prefix, digits := CutPrefix(u);
    PrefixIsCut(prefix, digits, u);
    SignIsCut(sign, u, HexValue(digits));
  }

  /**
   * `int(token, 16)`, both ways: a token without outer white space is read as `v` if
   * and only if it is a sign, a prefix and a spelling of that number, each optional
   * but the last.
   */
  lemma PythonHexExactly(t: Bytes, v: int)
    ensures PythonHex(t) == Some(v) <==>
            exists sign: Bytes, prefix: Bytes, digits: Bytes, ds: seq<nat> :: Reads(t, sign, prefix, digits, ds, v)
  {
    if PythonHex(t) == Some(v) {
      var sign, prefix, digits := CutToken(t);
      var ds := ReadIsSpelling(digits);
      SpellingIsRead(digits, ds);
      assert Reads(t, sign, prefix, digits, ds, v);
    }
    if sign: Bytes, prefix: Bytes, digits: Bytes, ds: seq<nat> :| Reads(t, sign, prefix, digits, ds, v) {
      TokenIsRead(t, sign, prefix, digits, ds, v);
    }
  }

  // ------------------------------------------------------------------ the line around a token

  predicate AllSpace(a: Bytes) {
    forall i :: 0 <= i < |a| ==> a[i] as char in {' ', '\t', '\n', '\r', '\U{b}', '\U{c}'}
  }

  predicate Bare(t: Bytes) { t != [] && !IsSpace(t[0]) && !IsSpace(t[|t| - 1]) && SEMICOLON !in t }

  lemma {:induction false} StripsLeft(a: Bytes, t: Bytes)
    requires AllSpace(a) && t != [] && !IsSpace(t[0])
    ensures LeftStripped(a + t) == t
  {
    if a == [] {
      assert a + t == t;
    } else {
      StripsLeft(a[1..], t);
      assert (a + t)[1..] == a[1..] + t;
    }
  }

  lemma {:induction false} StripsRight(t: Bytes, b: Bytes)
    requires AllSpace(b) && t != [] && !IsSpace(t[|t| - 1])
    ensures RightStripped(t + b) == t
  {
    if b == [] {
      assert t + b == t;
    } else {
      var n := |b| - 1;
      StripsRight(t, b[..n]);
      assert (t + b)[..|t + b| - 1] == t + b[..n];
    }
  }

  lemma Strips(a: Bytes, t: Bytes, b: Bytes)
    requires AllSpace(a) && AllSpace(b) && Bare(t)
    ensures LeftStripped(RightStripped(a + (t + b))) == t
  {
    var u := a + t;
    assert a + (t + b) == u + b && u[|u| - 1] == t[|t| - 1];
    StripsRight(u, b);
    StripsLeft(a, t);
  }

  /**
   * The size a line gives is that of its token, whatever white space stands around
   * it and whatever extension behind it.
   */
  lemma SizeOfToken(a: Bytes, t: Bytes, b: Bytes, extension: Bytes)
    requires AllSpace(a) && AllSpace(b) && Bare(t)
    ensures SizeOf(a + (t + b)) == PythonHex(t)
    ensures SizeOf((a + (t + b)) + ([SEMICOLON] + extension)) == PythonHex(t)
  {
    var s := a + (t + b);
    assert SEMICOLON !in s;
    CutAtSemicolon(s, extension);
    Strips(a, t, b);
  }

  /**
   * So a line of a size in hexadecimal digits, in either case and with leading
   * zeros or not, is a size line for that size if it is short enough.
   */
  lemma SizeInDigits(s: Bytes, ds: seq<nat>, extension: Bytes, line: Bytes)
    requires |s| == |ds| > 0 && forall i :: 0 <= i < |s| ==> IsDigitOf(s[i], ds[i])
    requires NL !in extension
    requires line == s + CRLF || line == s + ([SEMICOLON] + (extension + CRLF))
    ensures |line| <= MAX_CHUNK_LINE_BYTES <==> SizeLine(line, Value(ds))
  {
    DigitsRead(s, ds);
    BareDigits(s, ds);
    if line == s + CRLF {
      SizeOfToken([], s, CRLF, []);
      assert [] + (s + CRLF) == line;
      HeadOfLine(s, line);
    } else {
      SizeOfToken([], s, [], extension + CRLF);
      assert [] + (s + []) == s;
      HeadOfExtended(s, extension, line);
    }
  }

  lemma DigitsRead(s: Bytes, ds: seq<nat>)
    requires |s| == |ds| > 0 && forall i :: 0 <= i < |s| ==> IsDigitOf(s[i], ds[i])
    ensures PythonHex(s) == Some(Value(ds))
  {
    PlainSpells(s, ds);
    assert Token([], [], s) == s;
    TokenIsRead(s, [], [], s, ds, Value(ds));
  }

  lemma BareDigits(s: Bytes, ds: seq<nat>)
    requires |s| == |ds| > 0 && forall i :: 0 <= i < |s| ==> IsDigitOf(s[i], ds[i])
    ensures NL !in s && Bare(s)
  {
    forall i | 0 <= i < |s|
      ensures s[i] != NL && s[i] != SEMICOLON && !IsSpace(s[i])
    {
      DigitsExactly(s[i], ds[i]);
    }
  }
}
