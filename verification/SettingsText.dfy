/**
 * The `key=value` text of the settings, state and window files: reading it,
 * rewriting it, and what a rewrite leaves alone.
 */
module SettingsText {
  import opened Basics

  type Settings = map<string, string>

  // ------------------------------------------------------------------ lines

  /** Where `str.splitlines` ends a line. */
  predicate IsBoundary(c: char) {
    || c == '\n' || c == '\r' || c == '\U{b}' || c == '\U{c}' || c == '\U{1c}' || c == '\U{1d}'
    || c == '\U{1e}' || c == '\U{85}' || c == '\U{2028}' || c == '\U{2029}'
  }

  predicate OneLine(s: string) { forall i :: 0 <= i < |s| ==> !IsBoundary(s[i]) }

  predicate AllOneLine(lines: seq<string>) { forall i :: 0 <= i < |lines| ==> OneLine(lines[i]) }

  function FirstBoundary(s: string): (n: nat)
    ensures n <= |s| && OneLine(s[..n])
    ensures n < |s| ==> IsBoundary(s[n])
  {
    if s == [] || IsBoundary(s[0]) then 0
    else
      var n := FirstBoundary(s[1..]);
      assert s[..n + 1] == [s[0]] + s[1..][..n];
      n + 1
  }

  /** How many characters the line end at `n` takes: a CR LF pair is one end. */
  function EndWidth(s: string, n: nat): (w: nat)
    requires n < |s|
    ensures 1 <= w <= 2 && n + w <= |s|
  {
    if s[n] == '\r' && n + 1 < |s| && s[n + 1] == '\n' then 2 else 1
  }

  function Lines(text: string): (lines: seq<string>)
    ensures AllOneLine(lines)
    decreases |text|
  {
    if text == [] then []
    else
      var n := FirstBoundary(text);
      if n == |text| then [text[..n]]
      else [text[..n]] + Lines(text[n + EndWidth(text, n)..])
  }

  lemma {:induction false} FirstBoundaryAt(s: string, n: nat)
    requires n <= |s| && OneLine(s[..n]) && (n < |s| ==> IsBoundary(s[n]))
    ensures FirstBoundary(s) == n
  {
    if n > 0 {
      assert s[..n][0] == s[0];
      assert OneLine(s[1..][..n - 1]) by {
        var t := s[1..][..n - 1];
        forall i | 0 <= i < |t|
          ensures !IsBoundary(t[i])
        {
          assert t[i] == s[..n][i + 1];
        }
      }
      FirstBoundaryAt(s[1..], n - 1);
    }
  }

  lemma LineCut(text: string, n: nat, w: nat, first: string, rest: string)
    requires n < |text| && FirstBoundary(text) == n && w == EndWidth(text, n)
    requires first == text[..n] && rest == text[n + w..]
    ensures Lines(text) == [first] + Lines(rest)
  {
  }

  /** Any of them ends a line, and a carriage return together with a line feed behind it. */
  lemma LineEndsExactly(line: string, c: char, rest: string)
    requires OneLine(line) && IsBoundary(c)
    ensures Lines(line + ([c] + rest)) ==
            [line] + Lines(if c == '\r' && rest != [] && rest[0] == '\n' then rest[1..] else rest)
  {
    var tail := [c] + rest;
    var text, n := line + tail, |line|;
    assert text[..n] == line && text[n..] == tail && text[n] == c;
    FirstBoundaryAt(text, n);
    WidthAt(text, n, rest);
    LineCut(text, n, EndWidth(text, n), line, if c == '\r' && rest != [] && rest[0] == '\n' then rest[1..] else rest);
  }

  lemma WidthAt(text: string, n: nat, rest: string)
    requires n < |text| && text[n..] == [text[n]] + rest
    ensures EndWidth(text, n) == if text[n] == '\r' && rest != [] && rest[0] == '\n' then 2 else 1
    ensures text[n + 1..] == rest && (rest != [] ==> text[n + 2..] == rest[1..])
  {
    var tail := text[n..];
    assert text[n + 1..] == tail[1..] == rest;
    assert rest != [] ==> text[n + 1] == tail[1] == rest[0] && text[n + 2..] == tail[2..] == rest[1..];
  }

  lemma BoundaryInside(text: string, start: nat, i: nat, rest: string, line: string)
    requires start <= i < |text| && OneLine(line) && IsBoundary(text[i])
    requires rest == text[start..] && line == text[start..i]
    ensures i - start < |rest| && line == rest[..i - start] && FirstBoundary(rest) == i - start
    ensures EndWidth(rest, i - start) == EndWidth(text, i)
  {
    assert rest[..i - start] == line && rest[i - start] == text[i];
    FirstBoundaryAt(rest, i - start);
  }

  lemma LinesAtBoundary(text: string, start: nat, i: nat, rest: string, line: string, after: string)
    requires start <= i < |text| && OneLine(line) && IsBoundary(text[i])
    requires rest == text[start..] && line == text[start..i] && after == text[i + EndWidth(text, i)..]
    ensures Lines(rest) == [line] + Lines(after)
  {
    BoundaryInside(text, start, i, rest, line);
    RestAfter(text, start, i + EndWidth(text, i), rest, after);
    LineCut(rest, i - start, EndWidth(text, i), line, after);
  }

  lemma RestAfter(text: string, start: nat, end: nat, rest: string, after: string)
    requires start <= end <= |text| && rest == text[start..] && after == text[end..]
    ensures after == rest[end - start..]
  {
  }

  lemma LinesAtEnd(text: string)
    requires OneLine(text)
    ensures Lines(text) == if text == [] then [] else [text]
  {
    assert text[..|text|] == text;
    FirstBoundaryAt(text, |text|);
  }

  /** The lines found and those of the rest are all the lines, and none ends between `start` and `i`. */
  ghost predicate Scanned(all: seq<string>, lines: seq<string>, text: string, start: nat, i: nat) {
    start <= i <= |text| && OneLine(text[start..i]) && all == lines + Lines(text[start..])
  }

  lemma ScansFromStart(text: string)
    ensures Scanned(Lines(text), [], text, 0, 0)
  {
    assert text[0..] == text;
  }

  lemma ScansBoundary(all: seq<string>, lines: seq<string>, text: string, start: nat, i: nat, end: nat)
    requires Scanned(all, lines, text, start, i) && i < |text| && IsBoundary(text[i]) && end == i + EndWidth(text, i)
    ensures Scanned(all, lines + [text[start..i]], text, end, end)
  {
    var line, after := text[start..i], text[end..];
    LinesAtBoundary(text, start, i, text[start..], line, after);
    Associative(lines, [line], Lines(after));
  }

  lemma ScansOn(all: seq<string>, lines: seq<string>, text: string, start: nat, i: nat)
    requires Scanned(all, lines, text, start, i) && i < |text| && !IsBoundary(text[i])
    ensures Scanned(all, lines, text, start, i + 1)
  {
    assert text[start..i + 1] == text[start..i] + [text[i]];
  }

  lemma ScansToEnd(all: seq<string>, lines: seq<string>, text: string, start: nat)
    requires Scanned(all, lines, text, start, |text|)
    ensures all == if start < |text| then lines + [text[start..]] else lines
  {
    assert text[start..|text|] == text[start..];
    LinesAtEnd(text[start..]);
  }

  /** `splitlines`: one pass with the start of the current line. */
  method Splitlines(text: string) returns (lines: seq<string>)
    ensures lines == Lines(text)
  {
    lines := [];
    var start, i := 0, 0;
    ghost var all := Lines(text);
    ScansFromStart(text);
    while i < |text|
      invariant 0 <= start <= i <= |text| && Scanned(all, lines, text, start, i)
    {
      if IsBoundary(text[i]) {
        var end := i + EndWidth(text, i);
        ScansBoundary(all, lines, text, start, i, end);
        lines := lines + [text[start..i]];
        start := end;
        i := end;
      } else {
        ScansOn(all, lines, text, start, i);
        i := i + 1;
      }
    }
    ScansToEnd(all, lines, text, start);
    if start < |text| {
      lines := lines + [text[start..]];
    }
  }

  /** The characters that end a line, by number. */
  lemma BoundariesExactly(c: char)
    ensures IsBoundary(c) <==>
            || 0xa <= c as int <= 0xd || 0x1c <= c as int <= 0x1e
            || c as int == 0x85 || c as int == 0x2028 || c as int == 0x2029
  {
  }

  // ------------------------------------------------------------------ key=value

  function KeyOf(line: string): (k: string) {
    var eq := IndexOf(line, '=');
    if eq.Some? then line[..eq.value] else line
  }

  /** The key of a line is what stands before its first equals sign, or all of it. */
  lemma KeyOfExactly(k: string, v: string)
    requires '=' !in k
    ensures KeyOf(k + ['='] + v) == k && KeyOf(k) == k
  {
    IndexOfSplit(k, v, '=');
    assert (k + ['='] + v)[..|k|] == k;
  }

  function Pair(k: string, v: string): (line: string) { k + ['='] + v }

  function ParseLines(lines: seq<string>): (m: Settings) {
    if lines == [] then map[]
    else
      var m := ParseLines(lines[..|lines| - 1]);
      var line := lines[|lines| - 1];
      var eq := IndexOf(line, '=');
      if eq.Some? then m[line[..eq.value] := line[eq.value + 1..]] else m
  }

  function Entries(text: string): (m: Settings) { ParseLines(Lines(text)) }

  /** `parse_settings`: the last occurrence of a key wins. */
  method ParseSettings(text: string) returns (m: Settings)
    ensures m == Entries(text)
  {
    m := map[];
    var lines := Splitlines(text);
    for n := 0 to |lines|
      invariant m == ParseLines(lines[..n])
    {
      assert lines[..n + 1][..n] == lines[..n];
      var eq := IndexOf(lines[n], '=');
      if eq.Some? {
        m := m[lines[n][..eq.value] := lines[n][eq.value + 1..]];
      }
    }
    assert lines[..|lines|] == lines;
  }

  /** Each line with its line end. */
  function Unlines(lines: seq<string>): (text: string) {
    if lines == [] then [] else lines[0] + ['\n'] + Unlines(lines[1..])
  }

  lemma {:induction false} LinesOfUnlines(lines: seq<string>)
    requires AllOneLine(lines)
    ensures Lines(Unlines(lines)) == lines
  {
    if lines != [] {
      LinesStep(Unlines(lines), lines[0], Unlines(lines[1..]));
      LinesOfUnlines(lines[1..]);
      assert lines == [lines[0]] + lines[1..];
    }
  }

  lemma LinesStep(text: string, first: string, rest: string)
    requires OneLine(first) && text == first + ['\n'] + rest
    ensures Lines(text) == [first] + Lines(rest)
  {
    var n := |first|;
    assert text[..n] == first && text[n] == '\n';
    FirstBoundaryAt(text, n);
    assert text[n + 1..] == rest;
  }

  lemma {:induction false} UnlinesAppend(a: seq<string>, b: seq<string>)
    ensures Unlines(a + b) == Unlines(a) + Unlines(b)
  {
    if a == [] {
      assert a + b == b;
    } else {
      UnlinesAppend(a[1..], b);
      assert (a + b)[1..] == a[1..] + b;
    }
  }

  lemma {:induction false} ParseAppend(a: seq<string>, b: seq<string>)
    ensures ParseLines(a + b) == ParseLines(a) + ParseLines(b)
  {
    if b == [] {
      assert a + b == a;
    } else {
      var last := |b| - 1;
      ParseAppend(a, b[..last]);
      assert (a + b)[..|a + b| - 1] == a + b[..last];
    }
  }

  lemma ParsePair(k: string, v: string)
    requires '=' !in k
    ensures ParseLines([Pair(k, v)]) == map[k := v]
    ensures KeyOf(Pair(k, v)) == k
  {
    var line := Pair(k, v);
    IndexOfSplit(k, v, '=');
    assert line[..|k|] == k && line[|k| + 1..] == v;
    var lines: seq<string> := [line];
    assert lines[..0] == [];
  }

  lemma {:induction false} ParsedValuesAreOneLine(lines: seq<string>, k: string)
    requires AllOneLine(lines) && k in ParseLines(lines)
    ensures OneLine(ParseLines(lines)[k]) && OneLine(k) && '=' !in k
  {
    var last := |lines| - 1;
    var line := lines[last];
    var eq := IndexOf(line, '=');
    if eq.Some? && k == line[..eq.value] {
      assert OneLine(line);
    } else {
      ParsedValuesAreOneLine(lines[..last], k);
    }
  }

  // ------------------------------------------------------------------ rewriting settings

  datatype Change = Change(key: string, value: string)

  function Keys(changes: seq<Change>): (ks: set<string>) {
    if changes == [] then {} else Keys(changes[..|changes| - 1]) + {changes[|changes| - 1].key}
  }

  function Pairs(changes: seq<Change>): (lines: seq<string>) {
    if changes == [] then []
    else
      var last := changes[|changes| - 1];
      Pairs(changes[..|changes| - 1]) + [Pair(last.key, last.value)]
  }

  function Applied(m: Settings, changes: seq<Change>): (r: Settings) {
    if changes == [] then m
    else Applied(m, changes[..|changes| - 1])[changes[|changes| - 1].key := changes[|changes| - 1].value]
  }

  function Kept(lines: seq<string>, keys: set<string>): (r: seq<string>) {
    if lines == [] then []
    else
      var rest := Kept(lines[..|lines| - 1], keys);
      if KeyOf(lines[|lines| - 1]) in keys then rest else rest + [lines[|lines| - 1]]
  }

  /** `setting_set`: drop the keys' lines, append one each. */
  method SettingSet(text: string, changes: seq<Change>) returns (after: string)
    ensures after == Unlines(Kept(Lines(text), Keys(changes)) + Pairs(changes))
  {
    var lines := Splitlines(text);
    var keep: seq<string> := [];
    for n := 0 to |lines|
      invariant keep == Kept(lines[..n], Keys(changes))
    {
      assert lines[..n + 1][..n] == lines[..n];
      if KeyOf(lines[n]) !in Keys(changes) {
        keep := keep + [lines[n]];
      }
    }
    assert lines[..|lines|] == lines;
    after := Join(keep + Pairs(changes));
  }

  lemma UnlinesSnoc(front: seq<string>, line: string)
    ensures Unlines(front + [line]) == Unlines(front) + line + ['\n']
  {
    var one := [line];
    UnlinesAppend(front, one);
    assert one[1..] == [];
    assert Unlines(one) == line + ['\n'];
  }

  /** The lines, each with its line end, as one text. */
  method Join(lines: seq<string>) returns (text: string)
    ensures text == Unlines(lines)
  {
    text := "";
    for n := 0 to |lines|
      invariant text == Unlines(lines[..n])
    {
      UnlinesSnoc(lines[..n], lines[n]);
      assert lines[..n + 1] == lines[..n] + [lines[n]];
      text := text + lines[n] + ['\n'];
    }
    assert lines[..|lines|] == lines;
  }

  function WithLine(m: Settings, line: string): (r: Settings) {
    var eq := IndexOf(line, '=');
    if eq.Some? then m[line[..eq.value] := line[eq.value + 1..]] else m
  }

  lemma ParseSnoc(front: seq<string>, line: string)
    ensures ParseLines(front + [line]) == WithLine(ParseLines(front), line)
  {
    assert (front + [line])[..|front|] == front;
  }

  lemma LineDropped(m: Settings, line: string, keys: set<string>)
    ensures KeyOf(line) in keys ==> WithLine(m, line) - keys == m - keys
    ensures KeyOf(line) !in keys ==> WithLine(m, line) - keys == WithLine(m - keys, line)
  {
  }

  lemma KeptStep(front: seq<string>, line: string, kept: seq<string>, keys: set<string>)
    requires ParseLines(kept) == ParseLines(front) - keys
    ensures ParseLines(if KeyOf(line) in keys then kept else kept + [line]) == ParseLines(front + [line]) - keys
  {
    ParseSnoc(front, line);
    ParseSnoc(kept, line);
    LineDropped(ParseLines(front), line, keys);
  }

  lemma {:induction false} KeptOneLine(lines: seq<string>, keys: set<string>)
    requires AllOneLine(lines)
    ensures AllOneLine(Kept(lines, keys))
  {
    if lines != [] {
      KeptOneLine(lines[..|lines| - 1], keys);
    }
  }

  lemma {:induction false} KeptParses(lines: seq<string>, keys: set<string>)
    ensures ParseLines(Kept(lines, keys)) == ParseLines(lines) - keys
  {
    if lines != [] {
      var front, line := lines[..|lines| - 1], lines[|lines| - 1];
      var kept := Kept(front, keys);
      KeptParses(front, keys);
      KeptStep(front, line, kept, keys);
      assert front + [line] == lines;
      assert Kept(lines, keys) == if KeyOf(line) in keys then kept else kept + [line];
    }
  }

  predicate GoodKeys(changes: seq<Change>) {
    && (forall i :: 0 <= i < |changes| ==> '=' !in changes[i].key && OneLine(changes[i].key))
    && forall i, j :: 0 <= i < j < |changes| ==> changes[i].key != changes[j].key
  }

  lemma {:induction false} PairsParse(m: Settings, changes: seq<Change>)
    requires GoodKeys(changes)
    ensures m + ParseLines(Pairs(changes)) == Applied(m, changes)
    ensures ParseLines(Pairs(changes)).Keys == Keys(changes)
  {
    if changes != [] {
      var init, c := changes[..|changes| - 1], changes[|changes| - 1];
      PairsParse(m, init);
      var parsed := ParseLines(Pairs(init));
      assert ParseLines(Pairs(changes)) == parsed + map[c.key := c.value] by {
        ParseAppend(Pairs(init), [Pair(c.key, c.value)]);
        ParsePair(c.key, c.value);
      }
      AddOne(m, parsed, c.key, c.value);
    }
  }

  lemma AddOne(m: Settings, p: Settings, k: string, v: string)
    ensures m + (p + map[k := v]) == (m + p)[k := v]
    ensures (p + map[k := v]).Keys == p.Keys + {k}
  {
  }

  lemma {:induction false} PairsOneLine(changes: seq<Change>)
    requires GoodKeys(changes) && forall i :: 0 <= i < |changes| ==> OneLine(changes[i].value)
    ensures AllOneLine(Pairs(changes))
  {
    if changes != [] {
      PairsOneLine(changes[..|changes| - 1]);
    }
  }

  lemma {:induction false} AppliedLast(m: Settings, changes: seq<Change>, i: nat)
    requires GoodKeys(changes) && i < |changes|
    ensures changes[i].key in Applied(m, changes) && Applied(m, changes)[changes[i].key] == changes[i].value
  {
    var last := |changes| - 1;
    if i < last {
      AppliedLast(m, changes[..last], i);
    }
  }

  lemma {:induction false} AppliedMinus(m: Settings, keys: set<string>, changes: seq<Change>)
    requires Keys(changes) == keys && GoodKeys(changes)
    ensures Applied(m - keys, changes) == Applied(m, changes)
  {
    PairsParse(m - keys, changes);
    PairsParse(m, changes);
    var added := ParseLines(Pairs(changes));
    assert (m - keys) + added == m + added;
  }

  /**
   * A rewrite changes the given keys to the given values and nothing else, for
   * any text there was before, exactly when no value holds a line end.
   */
  lemma SettingSetExactly(text: string, changes: seq<Change>)
    requires GoodKeys(changes)
    ensures var after := Unlines(Kept(Lines(text), Keys(changes)) + Pairs(changes));
            Entries(after) == Applied(Entries(text), changes)
            <==> forall i :: 0 <= i < |changes| ==> OneLine(changes[i].value)
  {
    var keep, new_ := Kept(Lines(text), Keys(changes)), Pairs(changes);
    var after := Unlines(keep + new_);
    KeptOneLine(Lines(text), Keys(changes));
    KeptParses(Lines(text), Keys(changes));
    if forall i :: 0 <= i < |changes| ==> OneLine(changes[i].value) {
      PairsOneLine(changes);
      assert AllOneLine(keep + new_);
      LinesOfUnlines(keep + new_);
      ParseAppend(keep, new_);
      PairsParse(Entries(text) - Keys(changes), changes);
      AppliedMinus(Entries(text), Keys(changes), changes);
    } else {
      var i :| 0 <= i < |changes| && !OneLine(changes[i].value);
      AppliedLast(Entries(text), changes, i);
      if changes[i].key in Entries(after) {
        ParsedValuesAreOneLine(Lines(after), changes[i].key);
      }
    }
  }
}
