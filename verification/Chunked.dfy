/**
 * The chunked transfer coding (section 7.1 of RFC 9112) as `_read_chunked`
 * accepts it, as a function of the whole byte stream: which bytes it stores,
 * where it stops and why.
 */
module Chunked {
  import opened Basics

  const NL: byte := 10
  const CR: byte := 13
  const SEMICOLON: byte := 59
  const UNDERSCORE: byte := 95
  const CRLF: Bytes := [13, 10]

  const MAX_CHUNK_LINE_BYTES := 128
  const MAX_TRAILER_BYTES := 0x2000

  // ------------------------------------------------------------------ lines

  /** `s[..n]` is what `readline(limit)` takes from `s`. */
  predicate IsLine(s: Bytes, limit: nat, n: nat) {
    && n <= |s| && n <= limit
    && (forall i :: 0 <= i < n - 1 ==> s[i] != NL)
    && (n == limit || n == |s| || (n > 0 && s[n - 1] == NL))
  }

  function LineLength(s: Bytes, limit: nat): (n: nat)
    ensures IsLine(s, limit, n)
  {
    if limit == 0 || s == [] then 0
    else if s[0] == NL then 1
    else
      var m := LineLength(s[1..], limit - 1);
      assert forall i :: 0 < i < m ==> s[i] == s[1..][i - 1];
      1 + m
  }

  lemma LineUnique(s: Bytes, limit: nat, n: nat)
    requires IsLine(s, limit, n)
    ensures n == LineLength(s, limit)
  {
    var m := LineLength(s, limit);
    assert IsLine(s, limit, m);
  }

  /** One line of at most the allowed length, with its newline. */
  predicate TextLine(line: Bytes) { |line| <= MAX_CHUNK_LINE_BYTES && Ended(line) }

  predicate Ended(line: Bytes) {
    line != [] && line[|line| - 1] == NL && NL !in line[..|line| - 1]
  }

  lemma LineInFront(line: Bytes, t: Bytes, s: Bytes)
    requires TextLine(line) && s == line + t
    ensures LineLength(s, MAX_CHUNK_LINE_BYTES + 1) == |line| && s[..|line|] == line && s[|line|..] == t
  {
    assert forall i :: 0 <= i < |line| - 1 ==> s[i] == line[..|line| - 1][i];
    LineUnique(s, MAX_CHUNK_LINE_BYTES + 1, |line|);
  }

  lemma FrontIsLine(s: Bytes, n: nat)
    requires n == LineLength(s, MAX_CHUNK_LINE_BYTES + 1) && 0 < n <= MAX_CHUNK_LINE_BYTES
    requires s[n - 1] == NL
    ensures TextLine(s[..n])
  {
    assert s[..n][..n - 1] == s[..n - 1];
  }

  // ------------------------------------------------------------------ sizes

  predicate IsSpace(b: byte) { 9 <= b <= 13 || b == 32 }

  function LeftStripped(s: Bytes): (r: Bytes) {
    if s != [] && IsSpace(s[0]) then LeftStripped(s[1..]) else s
  }

  function RightStripped(s: Bytes): (r: Bytes) {
    if s != [] && IsSpace(s[|s| - 1]) then RightStripped(s[..|s| - 1]) else s
  }

  function BeforeSemicolon(s: Bytes): (r: Bytes) {
    if s == [] || s[0] == SEMICOLON then [] else [s[0]] + BeforeSemicolon(s[1..])
  }

  function HexDigit(b: byte): (d: Option<nat>) {
    if 48 <= b <= 57 then Some(b - 48)
    else if 97 <= b <= 102 then Some(b - 87)
    else if 65 <= b <= 70 then Some(b - 55)
    else None
  }

  /** Digits with single underscores between them. */
  predicate HexDigits(t: Bytes) {
    && t != [] && t[0] != UNDERSCORE && t[|t| - 1] != UNDERSCORE
    && forall i :: 0 <= i < |t| ==>
         HexDigit(t[i]).Some? || (t[i] == UNDERSCORE && i > 0 && t[i - 1] != UNDERSCORE)
  }

  function HexValue(t: Bytes): (n: nat) {
    if t == [] then 0
    else
      var front := HexValue(t[..|t| - 1]);
      match HexDigit(t[|t| - 1])
      case Some(d) => 16 * front + d
      case None => front
  }

  /** Python's `int(token, 16)` on a token without outer white space. */
  function PythonHex(token: Bytes): (r: Option<int>) {
    var signed := token != [] && (token[0] == 43 || token[0] == 45);
    var t := if signed then token[1..] else token;
    var prefixed := |t| >= 2 && t[0] == 48 && (t[1] == 120 || t[1] == 88);
    var u := if !prefixed then t else if |t| > 2 && t[2] == UNDERSCORE then t[3..] else t[2..];
    if !HexDigits(u) then None
    else
      var value: int := HexValue(u);
      Some(if signed && token[0] == 45 then -value else value)
  }

  function SizeOf(line: Bytes): (r: Option<int>) {
    PythonHex(LeftStripped(RightStripped(BeforeSemicolon(line))))
  }

  predicate SizeLine(line: Bytes, n: nat) { TextLine(line) && SizeOf(line) == Some(n) }

  // ------------------------------------------------------------------ the whole body

  datatype Parsed = Finished(body: Bytes, rest: Bytes) | Bad(body: Bytes) | TooLarge(body: Bytes) {
    function After(front: Bytes): (p: Parsed) {
      match this
      case Finished(b, rest) => Finished(front + b, rest)
      case Bad(b) => Bad(front + b)
      case TooLarge(b) => TooLarge(front + b)
    }
  }

  datatype Next = Chunk(data: Bytes, rest: Bytes) | End(parsed: Parsed)

  predicate Blank(line: Bytes) { line == CRLF || line == [NL] }

  /** The lines after the closing chunk's size line, of which `used` bytes are read. */
  function Trailers(s: Bytes, used: nat): (p: Parsed)
    decreases |s|
  {
    var n := LineLength(s, MAX_CHUNK_LINE_BYTES + 1);
    if n == 0 || n > MAX_CHUNK_LINE_BYTES || used + n > MAX_TRAILER_BYTES then Bad([])
    else if Blank(s[..n]) then Finished([], s[n..])
    else Trailers(s[n..], used + n)
  }

  /** The size a size line at the head of `s` gives, and the line's length. */
  function Header(s: Bytes): (r: Option<(nat, nat)>)
    ensures r.Some? ==> 0 < r.value.1 <= |s|
  {
    var n := LineLength(s, MAX_CHUNK_LINE_BYTES + 1);
    if n == 0 || n > MAX_CHUNK_LINE_BYTES || s[n - 1] != NL then None
    else
      var size := SizeOf(s[..n]);
      if size.None? || size.value < 0 then None else Some((size.value, n))
  }

  function NextData(t: Bytes, size: nat): (r: Next) {
    if |t| < size then End(Bad(t))
    else if |t| < size + 2 || t[size] != CR || t[size + 1] != NL then End(Bad(t[..size]))
    else Chunk(t[..size], t[size + 2..])
  }

  function NextChunk(s: Bytes, room: int): (r: Next)
    ensures r.Chunk? ==> |r.rest| < |s| && 0 < |r.data| <= room
  {
    match Header(s)
    case None => End(Bad([]))
    case Some((size, n)) =>
      if size == 0 then End(Trailers(s[n..], 0))
      else if size > room then End(TooLarge([]))
      else NextData(s[n..], size)
  }

  /** What the head of a stream is, when so many more bytes may be stored. */
  type Stepper = (Bytes, int) -> Next

  ghost function Head(next: Stepper, s: Bytes, room: int): (r: Next) { next(s, room) }

  /** Marks where a proof looks into `NextChunk`. */
  ghost predicate Look(s: Bytes, room: int) { true }

  /** `next` is `NextChunk`, seen only where `Look` is. */
  ghost predicate Grammar(next: Stepper) {
    forall s, room {:trigger Look(s, room)} :: Head(next, s, room) == NextChunk(s, room)
  }

  lemma ChunkedGrammar()
    ensures Grammar(NextChunk)
  {
    forall s, room
      ensures Head(NextChunk, s, room) == NextChunk(s, room)
    {
    }
  }

  /** What `_read_chunked` makes of the stream `s` when `room` more bytes may be stored. */
  ghost function Body(next: Stepper, s: Bytes, room: int): (p: Parsed)
    decreases |s|
  {
    match Head(next, s, room)
    case Chunk(data, rest) => if |rest| < |s| then Body(next, rest, room - |data|).After(data) else Bad([])
    case End(p) => p
  }

  /** Whole chunks read one after the other, each with the stream behind it. */
  datatype Chunks = Start | Then(before: Chunks, data: Bytes, rest: Bytes) {
    function Body(): (b: Bytes) {
      match this
      case Start => []
      case Then(before, data, _) => before.Body() + data
    }

    function Rest(s: Bytes): (r: Bytes) {
      match this
      case Start => s
      case Then(_, _, rest) => rest
    }

    /** These are the first chunks of `s`. */
    ghost predicate Of(next: Stepper, s: Bytes, room: int) {
      match this
      case Start => true
      case Then(before, data, rest) =>
        && before.Of(next, s, room)
        && Head(next, before.Rest(s), room - |before.Body()|) == Chunk(data, rest)
        && |rest| < |before.Rest(s)|
    }
  }

  lemma AfterTwice(p: Parsed, a: Bytes, b: Bytes)
    ensures p.After(b).After(a) == p.After(a + b)
  {
    Associative(a, b, p.body);
  }

  lemma AfterNothing(p: Parsed)
    ensures p.After([]) == p
  {
    assert [] + p.body == p.body;
  }

  lemma BodyStep(next: Stepper, s: Bytes, room: int, data: Bytes, rest: Bytes)
    requires Head(next, s, room) == Chunk(data, rest) && |rest| < |s|
    ensures Body(next, s, room) == Body(next, rest, room - |data|).After(data)
  {
  }

  /** The stream read as `whole` holds `body`, then what `rest` is read as. */
  ghost predicate GoesOn(next: Stepper, whole: Parsed, room: int, body: Bytes, rest: Bytes) {
    whole == Body(next, rest, room - |body|).After(body)
  }

  lemma GoesOnStep(next: Stepper, whole: Parsed, s: Bytes, room: int, body: Bytes, data: Bytes, rest: Bytes)
    requires GoesOn(next, whole, room, body, s)
    requires Head(next, s, room - |body|) == Chunk(data, rest) && |rest| < |s|
    ensures GoesOn(next, whole, room, body + data, rest)
  {
    BodyStep(next, s, room - |body|, data, rest);
    AfterTwice(Body(next, rest, room - |body| - |data|), body, data);
    assert room - |body| - |data| == room - |body + data|;
  }

  /** Reading on after whole chunks gives what reading from the start gives. */
  lemma {:induction false} GoesOnAtBoundary(next: Stepper, s: Bytes, room: int, chunks: Chunks)
    requires chunks.Of(next, s, room)
    ensures GoesOn(next, Body(next, s, room), room, chunks.Body(), chunks.Rest(s))
  {
    match chunks
    case Start =>
      AfterNothing(Body(next, s, room));
    case Then(before, data, rest) =>
      GoesOnAtBoundary(next, s, room, before);
      GoesOnStep(next, Body(next, s, room), before.Rest(s), room, before.Body(), data, rest);
  }

  /** The chunks read and the end behind them make the stream's body. */
  lemma EndsAfter(next: Stepper, s: Bytes, room: int, chunks: Chunks, p: Parsed)
    requires chunks.Of(next, s, room) && Head(next, chunks.Rest(s), room - |chunks.Body()|) == End(p)
    ensures Body(next, s, room) == p.After(chunks.Body())
  {
    GoesOnAtBoundary(next, s, room, chunks);
  }

  // ------------------------------------------------------------------ encodings

  datatype Part = Part(line: Bytes, data: Bytes)

  /** One encoding of a body: its chunks, the closing size line, trailer lines, a blank line. */
  datatype Frame = Frame(parts: seq<Part>, last: Bytes, trailers: seq<Bytes>, blank: Bytes) {
    predicate Valid() {
      && ValidParts(parts)
      && SizeLine(last, 0)
      && ValidTrailers(trailers, blank, 0)
    }

    function Body(): (b: Bytes) { Data(parts) }

    /** The encoding with `after` behind it. */
    function Text(after: Bytes): (s: Bytes) {
      PartsText(parts, last + TrailersText(trailers, blank + after))
    }
  }

  predicate ValidParts(parts: seq<Part>) {
    forall i :: 0 <= i < |parts| ==> parts[i].data != [] && SizeLine(parts[i].line, |parts[i].data|)
  }

  predicate ValidTrailers(lines: seq<Bytes>, blank: Bytes, used: nat) {
    if lines == [] then Blank(blank) && used + |blank| <= MAX_TRAILER_BYTES
    else
      && TextLine(lines[0]) && !Blank(lines[0]) && used + |lines[0]| <= MAX_TRAILER_BYTES
      && ValidTrailers(lines[1..], blank, used + |lines[0]|)
  }

  function Data(parts: seq<Part>): (b: Bytes) {
    if parts == [] then [] else parts[0].data + Data(parts[1..])
  }

  function PartsText(parts: seq<Part>, tail: Bytes): (s: Bytes) {
    if parts == [] then tail
    else parts[0].line + (parts[0].data + (CRLF + PartsText(parts[1..], tail)))
  }

  function TrailersText(lines: seq<Bytes>, tail: Bytes): (s: Bytes) {
    if lines == [] then tail else lines[0] + TrailersText(lines[1..], tail)
  }

  lemma {:induction false} PartsTextSplit(parts: seq<Part>, tail: Bytes, after: Bytes)
    ensures PartsText(parts, tail + after) == PartsText(parts, tail) + after
  {
    if parts != [] {
      PartsTextSplit(parts[1..], tail, after);
      var p, t := parts[0], PartsText(parts[1..], tail);
      Associative(CRLF, t, after);
      Associative(p.data, CRLF + t, after);
      Associative(p.line, p.data + (CRLF + t), after);
    }
  }

  lemma {:induction false} TrailersTextSplit(lines: seq<Bytes>, tail: Bytes, after: Bytes)
    ensures TrailersText(lines, tail + after) == TrailersText(lines, tail) + after
  {
    if lines != [] {
      TrailersTextSplit(lines[1..], tail, after);
      Associative(lines[0], TrailersText(lines[1..], tail), after);
    }
  }

  /** `Text(after)` is the encoding itself with `after` appended. */
  lemma TextSplit(f: Frame, after: Bytes)
    ensures f.Text(after) == f.Text([]) + after
  {
    var t := TrailersText(f.trailers, f.blank);
    assert f.blank + [] == f.blank;
    TrailersTextSplit(f.trailers, f.blank, after);
    Associative(f.last, t, after);
    PartsTextSplit(f.parts, f.last + t, after);
  }

  lemma {:induction false} ReadsTrailers(lines: seq<Bytes>, blank: Bytes, used: nat, after: Bytes)
    requires ValidTrailers(lines, blank, used)
    ensures Trailers(TrailersText(lines, blank + after), used) == Finished([], after)
  {
    var s := TrailersText(lines, blank + after);
    if lines == [] {
      BlankIsLine(blank);
      LineInFront(blank, after, s);
    } else {
      LineInFront(lines[0], TrailersText(lines[1..], blank + after), s);
      ReadsTrailers(lines[1..], blank, used + |lines[0]|, after);
    }
  }

  lemma BlankIsLine(blank: Bytes)
    requires Blank(blank)
    ensures TextLine(blank)
  {
  }

  /** A trailer line that is not the last is a whole line. */
  lemma TrailerGoesOn(s: Bytes, used: nat, n: nat, rest: Bytes)
    requires n == LineLength(s, MAX_CHUNK_LINE_BYTES + 1) && Trailers(s, used) == Finished([], rest) && !Blank(s[..n])
    ensures 0 < n && used + n <= MAX_TRAILER_BYTES && TextLine(s[..n])
    ensures Trailers(s[n..], used + n) == Finished([], rest)
  {
    assert Trailers(s[n..], used + n).Finished?;
    assert s[n..] != [];
    FrontIsLine(s, n);
  }

  lemma FirstTrailer(s: Bytes, used: nat, rest: Bytes) returns (line: Bytes, more: Bytes)
    requires Trailers(s, used) == Finished([], rest)
    ensures s == line + more && |more| < |s| && used + |line| <= MAX_TRAILER_BYTES
    ensures Blank(line) ==> more == rest
    ensures !Blank(line) ==> TextLine(line) && Trailers(more, used + |line|) == Finished([], rest)
  {
    var n := LineLength(s, MAX_CHUNK_LINE_BYTES + 1);
    line, more := s[..n], s[n..];
    if !Blank(line) {
      TrailerGoesOn(s, used, n, rest);
    }
  }

  lemma {:induction false} FindsTrailers(s: Bytes, used: nat, rest: Bytes) returns (lines: seq<Bytes>, blank: Bytes)
    requires Trailers(s, used) == Finished([], rest)
    ensures ValidTrailers(lines, blank, used) && s == TrailersText(lines, blank + rest)
    decreases |s|
  {
    var line, more := FirstTrailer(s, used, rest);
    if Blank(line) {
      lines, blank := [], line;
    } else {
      var tail, b := FindsTrailers(more, used + |line|, rest);
      OneMoreTrailer(line, tail, b, used, rest);
      lines, blank := [line] + tail, b;
    }
  }

  lemma OneMoreTrailer(line: Bytes, lines: seq<Bytes>, blank: Bytes, used: nat, rest: Bytes)
    requires TextLine(line) && !Blank(line) && used + |line| <= MAX_TRAILER_BYTES
    requires ValidTrailers(lines, blank, used + |line|)
    ensures ValidTrailers([line] + lines, blank, used)
    ensures TrailersText([line] + lines, blank + rest) == line + TrailersText(lines, blank + rest)
  {
    assert ([line] + lines)[1..] == lines;
  }

  lemma HeaderInFront(line: Bytes, n: nat, t: Bytes, s: Bytes)
    requires SizeLine(line, n) && s == line + t
    ensures Header(s) == Some((n, |line|)) && s[|line|..] == t
  {
    LineInFront(line, t, s);
  }

  lemma DataInFront(data: Bytes, after: Bytes, t: Bytes)
    requires t == data + (CRLF + after)
    ensures NextData(t, |data|) == Chunk(data, after)
  {
    assert t[..|data|] == data;
    assert t[|data|..] == CRLF + after;
    assert t[|data| + 2..] == after;
  }

  lemma ReadsPart(next: Stepper, p: Part, after: Bytes, s: Bytes, room: int)
    requires Grammar(next)
    requires p.data != [] && SizeLine(p.line, |p.data|)
    requires s == p.line + (p.data + (CRLF + after))
    ensures Head(next, s, room) == if |p.data| > room then End(TooLarge([])) else Chunk(p.data, after)
    ensures |after| < |s|
  {
    assert Look(s, room);
    var t := p.data + (CRLF + after);
    HeaderInFront(p.line, |p.data|, t, s);
    DataInFront(p.data, after, t);
  }

  /** What `Body` makes of `s` when `front` is followed by a stream read as `tail`. */
  ghost predicate ReadsAs(next: Stepper, s: Bytes, room: int, front: Bytes, tail: Bytes) {
    && (|front| <= room ==> Body(next, s, room) == Body(next, tail, room - |front|).After(front))
    && (|front| > room >= 0 ==> Body(next, s, room).TooLarge?)
  }

  lemma ReadsNothing(next: Stepper, s: Bytes, room: int)
    ensures ReadsAs(next, s, room, [], s)
  {
    AfterNothing(Body(next, s, room));
  }

  lemma ReadsOneMore(next: Stepper, s: Bytes, room: int, data: Bytes, after: Bytes, front: Bytes, tail: Bytes)
    requires Head(next, s, room) == Chunk(data, after) && |after| < |s|
    requires ReadsAs(next, after, room - |data|, front, tail) && |data| <= room
    ensures ReadsAs(next, s, room, data + front, tail)
  {
    BodyStep(next, s, room, data, after);
    assert room - |data| - |front| == room - |data + front|;
    AfterTwice(Body(next, tail, room - |data + front|), data, front);
  }

  lemma {:induction false} ReadsParts(next: Stepper, parts: seq<Part>, tail: Bytes, s: Bytes, room: int)
    requires Grammar(next) && ValidParts(parts) && s == PartsText(parts, tail)
    ensures ReadsAs(next, s, room, Data(parts), tail)
  {
    if parts == [] {
      ReadsNothing(next, s, room);
    } else {
      var p, more := parts[0], parts[1..];
      var after := PartsText(more, tail);
      ReadsPart(next, p, after, s, room);
      if |p.data| <= room {
        ReadsParts(next, more, tail, after, room - |p.data|);
        ReadsOneMore(next, s, room, p.data, after, Data(more), tail);
      }
    }
  }

  lemma ReadsClosing(next: Stepper, f: Frame, after: Bytes, room: int)
    requires Grammar(next) && f.Valid()
    ensures Head(next, f.last + TrailersText(f.trailers, f.blank + after), room) == End(Finished([], after))
  {
    var t := TrailersText(f.trailers, f.blank + after);
    assert Look(f.last + t, room);
    HeaderInFront(f.last, 0, t, f.last + t);
    ReadsTrailers(f.trailers, f.blank, 0, after);
  }

  /**
   * Every encoding of a body that fits is read as exactly that body, up to the end
   * of its trailer and no further; one that does not fit is refused as too large.
   */
  lemma ReadsEncoded(next: Stepper, f: Frame, after: Bytes, room: nat)
    requires Grammar(next) && f.Valid()
    ensures |f.Body()| <= room ==> Body(next, f.Text(after), room) == Finished(f.Body(), after)
    ensures |f.Body()| > room ==> Body(next, f.Text(after), room).TooLarge?
  {
    var tail := f.last + TrailersText(f.trailers, f.blank + after);
    ReadsParts(next, f.parts, tail, f.Text(after), room);
    ReadsClosing(next, f, after, room - |f.Body()|);
    assert f.Body() + [] == f.Body();
  }

  lemma SplitHeader(s: Bytes)
    requires Header(s).Some?
    ensures var (size, n) := Header(s).value; SizeLine(s[..n], size) && s == s[..n] + s[n..]
  {
    FrontIsLine(s, Header(s).value.1);
  }

  lemma SplitData(t: Bytes, size: nat)
    requires NextData(t, size).Chunk?
    ensures |NextData(t, size).data| == size
    ensures t == NextData(t, size).data + (CRLF + NextData(t, size).rest)
  {
    assert t == t[..size] + ([t[size], t[size + 1]] + t[size + 2..]);
  }

  /** What a frame's text becomes with one more chunk in front. */
  lemma OneMorePart(p: Part, g: Frame, f: Frame, rest: Bytes)
    requires f == Frame([p] + g.parts, g.last, g.trailers, g.blank)
    requires g.Valid() && p.data != [] && SizeLine(p.line, |p.data|)
    ensures f.Valid() && f.Body() == p.data + g.Body()
    ensures f.Text(rest) == p.line + (p.data + (CRLF + g.Text(rest)))
  {
    assert f.parts[1..] == g.parts;
  }

  lemma FindsClosing(s: Bytes, n: nat, rest: Bytes) returns (f: Frame)
    requires Header(s) == Some((0, n)) && Trailers(s[n..], 0) == Finished([], rest)
    ensures f.Valid() && f.Body() == [] && s == f.Text(rest)
  {
    SplitHeader(s);
    var lines, blank := FindsTrailers(s[n..], 0, rest);
    f := Frame([], s[..n], lines, blank);
  }

  lemma TrailersHoldNoBody(s: Bytes, used: nat)
    ensures Trailers(s, used).body == []
    decreases |s|
  {
  }

  /** A chunk at the head of `s` is a part of its encoding. */
  lemma FindsPart(next: Stepper, s: Bytes, room: int) returns (p: Part)
    requires Grammar(next) && Head(next, s, room).Chunk?
    ensures p.data == Head(next, s, room).data != [] && SizeLine(p.line, |p.data|) && |p.data| <= room
    ensures s == p.line + (p.data + (CRLF + Head(next, s, room).rest)) && |Head(next, s, room).rest| < |s|
  {
    assert Look(s, room);
    SplitHeader(s);
    var (size, n) := Header(s).value;
    SplitData(s[n..], size);
    p := Part(s[..n], Head(next, s, room).data);
  }

  lemma FindsEnd(next: Stepper, s: Bytes, room: int, rest: Bytes, body: Bytes) returns (f: Frame)
    requires Grammar(next) && Head(next, s, room) == End(Finished(body, rest))
    ensures body == [] && f.Valid() && f.Body() == [] && s == f.Text(rest)
  {
    assert Look(s, room);
    var (size, n) := Header(s).value;
    TrailersHoldNoBody(s[n..], 0);
    f := FindsClosing(s, n, rest);
  }

  lemma {:induction false} FindsFrame(next: Stepper, s: Bytes, room: int, p: Parsed) returns (f: Frame)
    requires Grammar(next) && p == Body(next, s, room) && p.Finished?
    ensures f.Valid() && f.Body() == p.body && s == f.Text(p.rest)
    ensures |f.Body()| <= room || f.Body() == []
    decreases |s|
  {
    match Head(next, s, room)
    case End(e) =>
      f := FindsEnd(next, s, room, p.rest, p.body);
    case Chunk(data, rest) =>
      var part := FindsPart(next, s, room);
      BodyStep(next, s, room, data, rest);
      var q := Body(next, rest, room - |data|);
      var g := FindsFrame(next, rest, room - |data|, q);
      f := Frame([part] + g.parts, g.last, g.trailers, g.blank);
      OneMorePart(part, g, f, q.rest);
  }

  ghost predicate Encodes(f: Frame, body: Bytes, rest: Bytes, s: Bytes) {
    f.Valid() && f.Body() == body && s == f.Text(rest)
  }

  /** Only encodings are read to the end, and each as its own body. */
  lemma ReadsExactly(next: Stepper, s: Bytes, room: nat, body: Bytes, rest: Bytes)
    requires Grammar(next)
    ensures Body(next, s, room) == Finished(body, rest) <==>
            |body| <= room && exists f: Frame :: Encodes(f, body, rest, s)
  {
    if Body(next, s, room) == Finished(body, rest) {
      var f := FindsFrame(next, s, room, Finished(body, rest));
      assert Encodes(f, body, rest, s);
    }
    if f: Frame :| Encodes(f, body, rest, s) {
      ReadsEncoded(next, f, rest, room);
    }
  }

  // ------------------------------------------------------------------ boundaries inside an encoding

  lemma DataSnoc(parts: seq<Part>, n: nat)
    requires n < |parts|
    ensures Data(parts[..n + 1]) == Data(parts[..n]) + parts[n].data
  {
    if n == 0 {
      assert parts[..1][1..] == [];
    } else {
      DataSnoc(parts[1..], n - 1);
      assert parts[..n + 1][1..] == parts[1..][..n] && parts[..n][1..] == parts[1..][..n - 1];
      Associative(parts[0].data, Data(parts[1..][..n - 1]), parts[n].data);
    }
  }

  lemma PartsTextAt(parts: seq<Part>, n: nat, tail: Bytes)
    requires n < |parts|
    ensures PartsText(parts[n..], tail) ==
            parts[n].line + (parts[n].data + (CRLF + PartsText(parts[n + 1..], tail)))
  {
    assert parts[n..][1..] == parts[n + 1..];
  }

  /** `body` is what the first `n` parts hold, and `rest` what stands behind them. */
  ghost predicate PartsRead(parts: seq<Part>, tail: Bytes, n: nat, body: Bytes, rest: Bytes) {
    n <= |parts| && body == Data(parts[..n]) && rest == PartsText(parts[n..], tail)
  }

  lemma NextIsPart(
    next: Stepper, parts: seq<Part>, tail: Bytes, n: nat, body: Bytes, t: Bytes, room: int, data: Bytes, rest: Bytes)
    requires Grammar(next) && ValidParts(parts) && PartsRead(parts, tail, n, body, t)
    requires Head(next, tail, room).End? && Head(next, t, room) == Chunk(data, rest)
    ensures PartsRead(parts, tail, n + 1, body + data, rest)
  {
    if n < |parts| {
      PartsTextAt(parts, n, tail);
      ReadsPart(next, parts[n], PartsText(parts[n + 1..], tail), t, room);
      DataSnoc(parts, n);
    }
  }

  lemma {:induction false} WholeChunksOfParts(
    next: Stepper, parts: seq<Part>, tail: Bytes, s: Bytes, room: int, chunks: Chunks) returns (n: nat)
    requires Grammar(next) && ValidParts(parts) && PartsRead(parts, tail, 0, [], s) && chunks.Of(next, s, room)
    requires forall r :: Head(next, tail, r).End?
    ensures PartsRead(parts, tail, n, chunks.Body(), chunks.Rest(s))
  {
    match chunks
    case Start =>
      n := 0;
    case Then(before, data, rest) =>
      var m := WholeChunksOfParts(next, parts, tail, s, room, before);
      var body, t := before.Body(), before.Rest(s);
      NextIsPart(next, parts, tail, m, body, t, room - |body|, data, rest);
      n := m + 1;
  }

  /** Whole chunks of an encoding are its first parts, whatever their number. */
  lemma WholeChunksOfEncoded(next: Stepper, f: Frame, after: Bytes, room: int, chunks: Chunks) returns (n: nat)
    requires Grammar(next) && f.Valid() && chunks.Of(next, f.Text(after), room)
    ensures n <= |f.parts| && chunks.Body() == Data(f.parts[..n])
  {
    var tail := f.last + TrailersText(f.trailers, f.blank + after);
    forall r
      ensures Head(next, tail, r).End?
    {
      ReadsClosing(next, f, after, r);
    }
    assert f.parts[0..] == f.parts;
    n := WholeChunksOfParts(next, f.parts, tail, f.Text(after), room, chunks);
  }

  // ------------------------------------------------------------------ sizes as senders write them

  function HexByte(d: nat): (b: byte)
    requires d < 16
  {
    if d < 10 then 48 + d else 87 + d
  }

  function HexText(n: nat): (s: Bytes)
    ensures s != [] && forall i :: 0 <= i < |s| ==> HexDigit(s[i]).Some?
  {
    if n < 16 then [HexByte(n)] else HexText(n / 16) + [HexByte(n % 16)]
  }

  lemma {:induction false} HexRoundTrip(n: nat)
    ensures HexValue(HexText(n)) == n
  {
    var s := HexText(n);
    if n < 16 {
      assert s[..0] == [];
    } else {
      HexRoundTrip(n / 16);
      assert s[..|s| - 1] == HexText(n / 16);
    }
  }

  lemma PlainDigits(s: Bytes)
    requires s != [] && forall i :: 0 <= i < |s| ==> HexDigit(s[i]).Some?
    ensures HexDigits(s)
  {
    assert HexDigit(UNDERSCORE).None?;
  }

  lemma PlainHex(s: Bytes)
    requires s != [] && HexDigit(s[0]).Some? && (|s| > 1 ==> HexDigit(s[1]).Some?) && HexDigits(s)
    ensures PythonHex(s) == Some(HexValue(s))
  {
  }

  lemma {:induction false} CutAtSemicolon(s: Bytes, t: Bytes)
    requires SEMICOLON !in s
    ensures BeforeSemicolon(s) == s && BeforeSemicolon(s + ([SEMICOLON] + t)) == s
  {
    if s != [] {
      CutAtSemicolon(s[1..], t);
      assert (s + ([SEMICOLON] + t))[1..] == s[1..] + ([SEMICOLON] + t);
    }
  }

  lemma StripLineEnd(h: Bytes)
    requires h != [] && !IsSpace(h[0]) && !IsSpace(h[|h| - 1])
    ensures LeftStripped(RightStripped(h)) == h && LeftStripped(RightStripped(h + CRLF)) == h
  {
    var one := h + [CR];
    assert (h + CRLF)[..|h| + 1] == one && one[..|h|] == h;
    assert RightStripped(one) == h;
  }

  lemma HexToken(h: Bytes, n: nat)
    requires h == HexText(n)
    ensures SEMICOLON !in h && NL !in h
    ensures PythonHex(LeftStripped(RightStripped(h))) == Some(n)
    ensures PythonHex(LeftStripped(RightStripped(h + CRLF))) == Some(n)
  {
    assert forall i :: 0 <= i < |h| ==> HexDigit(h[i]).Some?;
    StripLineEnd(h);
    PlainDigits(h);
    PlainHex(h);
    HexRoundTrip(n);
  }

  /** The size in hexadecimal is a size line, if it is short enough. */
  lemma HexLine(h: Bytes, line: Bytes, n: nat)
    requires h == HexText(n) && line == h + CRLF
    ensures |line| <= MAX_CHUNK_LINE_BYTES <==> SizeLine(line, n)
  {
    HexToken(h, n);
    CutAtSemicolon(line, []);
    HeadOfLine(h, line);
  }

  /** So is the size with an extension behind it. */
  lemma HexLineExtended(h: Bytes, extension: Bytes, line: Bytes, n: nat)
    requires h == HexText(n) && NL !in extension && line == h + ([SEMICOLON] + (extension + CRLF))
    ensures |line| <= MAX_CHUNK_LINE_BYTES <==> SizeLine(line, n)
  {
    HexToken(h, n);
    SizeBeforeSemicolon(h, extension + CRLF, line);
    HeadOfExtended(h, extension, line);
  }

  lemma SizeBeforeSemicolon(h: Bytes, t: Bytes, line: Bytes)
    requires SEMICOLON !in h && line == h + ([SEMICOLON] + t)
    ensures SizeOf(line) == PythonHex(LeftStripped(RightStripped(h)))
  {
    CutAtSemicolon(h, t);
  }

  lemma HeadOfExtended(h: Bytes, extension: Bytes, line: Bytes)
    requires NL !in h && NL !in extension && line == h + ([SEMICOLON] + (extension + CRLF))
    ensures Ended(line)
  {
    var front := h + ([SEMICOLON] + extension);
    assert line == front + CRLF;
    HeadOfLine(front, line);
  }

  lemma HeadOfLine(front: Bytes, line: Bytes)
    requires NL !in front && line == front + CRLF
    ensures Ended(line)
  {
    assert line[..|line| - 1] == front + [CR];
  }
}
