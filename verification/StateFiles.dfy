/**
 * The two counters in one state file, and the window file's text: what the
 * state machine's `seqno`, `gen` and `window` are on disk.
 */
module StateFiles {
  import opened Basics
  import opened Selection
  import opened CachePayload
  import opened SettingsText

  const U64_MAX := 0xffff_ffff_ffff_ffff

  // ------------------------------------------------------------------ counters

  /** `counter`: anything that is not a 64-bit decimal number reads as zero. */
  function CounterOf(m: Settings, name: string): (n: nat)
    ensures n <= U64_MAX
  {
    if name in m && m[name] != "" && AllDigits(m[name]) && DigitsValue(m[name]) <= U64_MAX
    then DigitsValue(m[name]) else 0
  }

  /** The release build wraps at the top. */
  function Bumped(m: Settings, name: string): (n: nat) { (CounterOf(m, name) + 1) % (U64_MAX + 1) }

  /**
   * `bump`: read the whole file, change one entry, write the whole file. The
   * program writes the entries sorted; the order makes no difference below.
   */
  method Bump(text: string, name: string) returns (after: string, value: nat)
    requires '=' !in name && OneLine(name)
    ensures value == Bumped(Entries(text), name)
    ensures Entries(after) == Entries(text)[name := Decimal(value)]
  {
    var state := ParseSettings(text);
    value := Bumped(state, name);
    EntriesClean(text, name, value);
    after := WriteEntries(state[name := Decimal(value)]);
  }

  predicate Clean(m: Settings) { forall k :: k in m ==> OneLine(k) && OneLine(m[k]) && '=' !in k }

  method WriteEntries(m: Settings) returns (text: string)
    requires Clean(m)
    ensures Entries(text) == m
  {
    var left := m.Keys;
    ghost var lines: seq<string> := [];
    text := "";
    while left != {}
      invariant left <= m.Keys
      invariant text == Unlines(lines) && AllOneLine(lines)
      invariant ParseLines(lines) == m - left
      decreases |left|
    {
      var k :| k in left;
      AddLine(lines, k, m[k]);
      lines := lines + [Pair(k, m[k])];
      text := text + (Pair(k, m[k]) + ['\n']);
      assert m - (left - {k}) == (m - left)[k := m[k]];
      left := left - {k};
    }
    LinesOfUnlines(lines);
    assert m - {} == m;
  }

  lemma AddLine(lines: seq<string>, k: string, v: string)
    requires AllOneLine(lines) && OneLine(k) && OneLine(v) && '=' !in k
    ensures AllOneLine(lines + [Pair(k, v)])
    ensures ParseLines(lines + [Pair(k, v)]) == ParseLines(lines)[k := v]
    ensures Unlines(lines + [Pair(k, v)]) == Unlines(lines) + (Pair(k, v) + ['\n'])
  {
    ParsePair(k, v);
    ParseAppend(lines, [Pair(k, v)]);
    UnlinesAppend(lines, [Pair(k, v)]);
    UnlinesOne(Pair(k, v));
    PairOneLine(k, v);
    AllOneLineSnoc(lines, Pair(k, v));
  }

  lemma AllOneLineSnoc(lines: seq<string>, line: string)
    requires AllOneLine(lines) && OneLine(line)
    ensures AllOneLine(lines + [line])
  {
  }

  lemma UnlinesOne(line: string)
    ensures Unlines([line]) == line + ['\n']
  {
    var lines: seq<string> := [line];
    assert lines[1..] == [];
  }

  lemma PairOneLine(k: string, v: string)
    requires OneLine(k) && OneLine(v)
    ensures OneLine(Pair(k, v))
  {
  }

  lemma DigitsOneLine(s: string)
    requires AllDigits(s)
    ensures OneLine(s)
  {
    forall i | 0 <= i < |s|
      ensures !IsBoundary(s[i])
    {
      assert IsDigit(s[i]);
    }
  }

  lemma DecimalOneLine(n: nat)
    ensures OneLine(Decimal(n))
  {
    DigitsOneLine(Decimal(n));
  }

  /** Whatever the file holds, its entries can be written back. */
  lemma EntriesClean(text: string, name: string, value: nat)
    requires '=' !in name && OneLine(name)
    ensures Clean(Entries(text)[name := Decimal(value)])
  {
    DecimalOneLine(value);
    forall k | k in Entries(text)
      ensures OneLine(k) && OneLine(Entries(text)[k]) && '=' !in k
    {
      ParsedValuesAreOneLine(Lines(text), k);
    }
  }

  /**
   * `seq` and `gen` share one file, and neither bump loses or lowers the other:
   * after a bump the counter reads one more (or zero, from the largest 64-bit
   * number), and every other entry reads as before.
   */
  lemma BumpMovesOneCounter(m: Settings, name: string, other: string)
    requires other != name
    ensures var after := m[name := Decimal(Bumped(m, name))];
            && CounterOf(after, name) == (if CounterOf(m, name) == U64_MAX then 0 else CounterOf(m, name) + 1)
            && CounterOf(after, other) == CounterOf(m, other)
            && after.Keys == m.Keys + {name}
  {
    DecimalRoundTrip(Bumped(m, name));
  }

  /** A counter is read from its decimal text, and as zero where there is none. */
  lemma CounterReads(m: Settings, name: string, n: nat)
    ensures n <= U64_MAX ==> CounterOf(m[name := Decimal(n)], name) == n
    ensures n > U64_MAX ==> CounterOf(m[name := Decimal(n)], name) == 0
    ensures name !in m || m[name] == "" || !AllDigits(m[name]) ==> CounterOf(m, name) == 0
  {
    DecimalRoundTrip(n);
  }

  // ------------------------------------------------------------------ the window file

  /** The window a file's text describes, or nothing when it is unparseable. */
  function ParseWindow(text: string): (w: Option<Window>) {
    WindowOf(Entries(text))
  }

  function Lookup(m: Settings, k: string): (v: string) { if k in m then m[k] else "" }

  function WindowOf(fields: Settings): (w: Option<Window>) {
    if "source" !in fields then None
    else if fields["source"] == "disk" then Some(Disk)
    else if fields["source"] == "self-signed" then Some(SelfSigned)
    else if fields["source"] == "1password" then
      var id, expiry := Lookup(fields, "fetch_id"), Lookup(fields, "hard_expiry");
      if !IsFetchId(id) || expiry == "" || !AllDigits(expiry) then None
      else Some(OnePassword(id, if DigitsValue(expiry) <= I64_MAX then DigitsValue(expiry) else I64_MAX))
    else None
  }

  /** The lines `window` writes; `serial` is the key's, in decimal, or "None". */
  function WindowChanges(w: Window, serial: string): (c: seq<Change>)
    requires w.OnePassword? ==> w.hardExpiry >= 0
  {
    match w
    case OnePassword(id, expiry) =>
      [Change("source", "1password"), Change("fetch_id", id),
       Change("hard_expiry", Decimal(expiry)), Change("cache_serial", serial)]
    case Disk => [Change("source", "disk")]
    case SelfSigned => [Change("source", "self-signed")]
  }

  function WindowText(w: Window, serial: string): (text: string)
    requires w.OnePassword? ==> w.hardExpiry >= 0
  {
    Unlines(Pairs(WindowChanges(w, serial)))
  }

  lemma FieldNames()
    ensures "source" != "fetch_id" && "source" != "hard_expiry" && "source" != "cache_serial"
    ensures "fetch_id" != "hard_expiry" && "fetch_id" != "cache_serial" && "hard_expiry" != "cache_serial"
    ensures "1password" != "disk" && "1password" != "self-signed" && "disk" != "self-signed"
  {
    assert |"source"| == 6 && |"fetch_id"| == 8 && |"hard_expiry"| == 11 && |"cache_serial"| == 12;
    assert |"1password"| == 9 && |"disk"| == 4 && |"self-signed"| == 11;
  }

  lemma FieldNamesClean()
    ensures '=' !in "source" && '=' !in "fetch_id" && '=' !in "hard_expiry" && '=' !in "cache_serial"
    ensures OneLine("source") && OneLine("fetch_id") && OneLine("hard_expiry") && OneLine("cache_serial")
  {
  }

  lemma SourcesClean()
    ensures OneLine("1password") && OneLine("disk") && OneLine("self-signed")
  {
  }

  lemma HexOneLine(s: string)
    requires AllHex(s)
    ensures OneLine(s)
  {
    forall i | 0 <= i < |s|
      ensures !IsBoundary(s[i])
    {
      assert IsHexDigit(s[i]);
    }
  }

  /** Parsing clean pairs gives exactly their entries. */
  lemma PairsTextParses(changes: seq<Change>)
    requires GoodKeys(changes) && forall i :: 0 <= i < |changes| ==> OneLine(changes[i].value)
    ensures Entries(Unlines(Pairs(changes))) == Applied(map[], changes)
  {
    var lines := Pairs(changes);
    PairsOneLine(changes);
    LinesOfUnlines(lines);
    PairsParse(map[], changes);
    NothingAdded(ParseLines(lines));
  }

  lemma NothingAdded(m: Settings)
    ensures map[] + m == m
  {
  }

  /**
   * The text `window` writes parses back to the window it meant, for the
   * identity of any well-formed payload and whatever the serial.
   */
  lemma WindowTextRoundTrip(w: Window, serial: string)
    requires w.OnePassword? ==> IsFetchId(w.fetchId) && 0 <= w.hardExpiry <= I64_MAX
    requires OneLine(serial)
    ensures ParseWindow(WindowText(w, serial)) == Some(w)
  {
    var changes := WindowChanges(w, serial);
    FieldNames();
    FieldNamesClean();
    SourcesClean();
    match w {
      case OnePassword(id, expiry) =>
        HexOneLine(id);
        DecimalOneLine(expiry);
        PairsTextParses(changes);
        AppliedLast(map[], changes, 0);
        AppliedLast(map[], changes, 1);
        AppliedLast(map[], changes, 2);
        DecimalRoundTrip(expiry);
      case Disk =>
        PairsTextParses(changes);
        AppliedLast(map[], changes, 0);
      case SelfSigned =>
        PairsTextParses(changes);
        AppliedLast(map[], changes, 0);
    }
  }

  lemma PairsOf(changes: seq<Change>, front: seq<Change>, c: Change)
    requires changes == front + [c]
    ensures Pairs(changes) == Pairs(front) + [Pair(c.key, c.value)]
  {
    assert changes[..|changes| - 1] == front;
  }

  lemma TextOf(lines: seq<string>, front: seq<string>, line: string)
    requires lines == front + [line]
    ensures Unlines(lines) == Unlines(front) + (line + ['\n'])
  {
    UnlinesSnoc(front, line);
  }

  function FileLine(c: Change): (line: string) { c.key + "=" + c.value + "\n" }

  /** The window file, to the letter. */
  lemma WindowFile(id: string, expiry: nat, serial: string)
    ensures WindowText(Disk, serial) == FileLine(Change("source", "disk"))
    ensures WindowText(SelfSigned, serial) == FileLine(Change("source", "self-signed"))
    ensures WindowText(OnePassword(id, expiry), serial) ==
            FileLine(Change("source", "1password")) + FileLine(Change("fetch_id", id))
            + FileLine(Change("hard_expiry", Decimal(expiry))) + FileLine(Change("cache_serial", serial))
  {
    OneLineFile(Change("source", "disk"));
    OneLineFile(Change("source", "self-signed"));
    FourLineFile(Change("source", "1password"), Change("fetch_id", id),
                 Change("hard_expiry", Decimal(expiry)), Change("cache_serial", serial));
  }

  lemma FourLineFile(c1: Change, c2: Change, c3: Change, c4: Change)
    ensures Unlines(Pairs([c1, c2, c3, c4])) == FileLine(c1) + FileLine(c2) + FileLine(c3) + FileLine(c4)
  {
    OneLineFile(c1);
    AddsLine([c1], c2);
    assert [c1] + [c2] == [c1, c2];
    AddsLine([c1, c2], c3);
    assert [c1, c2] + [c3] == [c1, c2, c3];
    AddsLine([c1, c2, c3], c4);
    assert [c1, c2, c3] + [c4] == [c1, c2, c3, c4];
  }

  lemma AddsLine(front: seq<Change>, c: Change)
    ensures Unlines(Pairs(front + [c])) == Unlines(Pairs(front)) + FileLine(c)
  {
    PairsOf(front + [c], front, c);
    TextOf(Pairs(front + [c]), Pairs(front), Pair(c.key, c.value));
  }

  lemma OneLineFile(c: Change)
    ensures Unlines(Pairs([c])) == FileLine(c)
  {
    AddsLine([], c);
    assert [] + [c] == [c];
  }
}
