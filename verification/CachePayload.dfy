/**
 * The identity cache's payload: a magic line, a one-line JSON header, and three
 * byte parts. A `char` stands for one byte here, so that the header's text and
 * the parts share one type. The JSON reader is modelled on the compact, sorted
 * text the encoder writes.
 */
module CachePayload {
  import opened Basics

  const MAGIC := "OMDROP-IDENTITY 1"
  const MAX_LIFETIME := 86400
  const MAX_PART := 16384
  const MAX_PAYLOAD := 32767
  const I64_MAX := 0x7fff_ffff_ffff_ffff

  datatype Payload = Payload(
    fetchId: string, fetchedAt: int, periodEnds: int, hardExpiry: int,
    certificate: string, key: string, record: string)

  predicate IsHexDigit(c: char) { IsDigit(c) || 'a' <= c <= 'f' }

  predicate AllHex(s: string) { forall i :: 0 <= i < |s| ==> IsHexDigit(s[i]) }

  predicate IsFetchId(s: string) { |s| == 32 && AllHex(s) }

  predicate GoodTimes(t0: int, t1: int, t2: int) {
    0 <= t0 <= t1 <= t2 <= I64_MAX && t2 - t0 <= MAX_LIFETIME
  }

  predicate GoodPart(part: string) { 1 <= |part| <= MAX_PART }

  /** What every published payload satisfies, apart from its total size. */
  predicate WellFormed(p: Payload) {
    && IsFetchId(p.fetchId)
    && GoodTimes(p.fetchedAt, p.periodEnds, p.hardExpiry)
    && GoodPart(p.certificate) && GoodPart(p.key) && GoodPart(p.record)
  }

  // ------------------------------------------------------------------ writing

  const HEX := "0123456789abcdef"

  /** One character inside a JSON string, as the JSON writer escapes it. */
  function EscapeChar(c: char): (s: string)
    ensures '\n' !in s
    ensures if IsHexDigit(c) then s == [c] else |s| > 0 && !IsHexDigit(s[0]) && s[0] != '"'
  {
    if c == '"' then "\\\""
    else if c == '\\' then "\\\\"
    else if c == '\n' then "\\n"
    else if c == '\r' then "\\r"
    else if c == '\t' then "\\t"
    else if c as int == 8 then "\\b"
    else if c as int == 12 then "\\f"
    else if (c as int) < 32 then "\\u00" + [HEX[c as int / 16], HEX[c as int % 16]]
    else [c]
  }

  function Escape(s: string): (r: string)
    ensures '\n' !in r
  {
    if s == [] then [] else EscapeChar(s[0]) + Escape(s[1..])
  }

  function Signed(n: int): (s: string)
    ensures '\n' !in s
  {
    if n < 0 then "-" + Decimal(-n) else Decimal(n)
  }

  /** `"name":n` followed by the rest of the header. */
  function Field(before: string, n: int, rest: string): (s: string)
    ensures '\n' !in before && '\n' !in rest ==> '\n' !in s
  {
    before + (Signed(n) + rest)
  }

  const C_TAG := "{\"certificate\":"
  const ID_TAG := ",\"fetch_id\":\""
  const T0_TAG := "\",\"fetched_at\":"
  const T2_TAG := ",\"hard_expiry\":"
  const K_TAG := ",\"key\":"
  const T1_TAG := ",\"period_ends\":"
  const R_TAG := ",\"record\":"

  function HeaderText(p: Payload): (h: string) {
    Field(C_TAG, |p.certificate|,
      ID_TAG + (Escape(p.fetchId) +
        Field(T0_TAG, p.fetchedAt, Field(T2_TAG, p.hardExpiry,
          Field(K_TAG, |p.key|, Field(T1_TAG, p.periodEnds, Field(R_TAG, |p.record|, "}")))))))
  }

  lemma HeaderIsOneLine(p: Payload)
    ensures '\n' !in HeaderText(p)
  {
    assert '\n' !in C_TAG && '\n' !in ID_TAG && '\n' !in T0_TAG && '\n' !in T2_TAG;
    assert '\n' !in K_TAG && '\n' !in T1_TAG && '\n' !in R_TAG && '\n' !in "}";
    var s2 := Field(T2_TAG, p.hardExpiry,
                Field(K_TAG, |p.key|, Field(T1_TAG, p.periodEnds, Field(R_TAG, |p.record|, "}"))));
    var s0 := ID_TAG + (Escape(p.fetchId) + Field(T0_TAG, p.fetchedAt, s2));
    assert '\n' !in s0;
  }

  function Line(line: string, rest: string): (s: string) { line + ['\n'] + rest }

  function Framed(p: Payload): (data: string) {
    Line(MAGIC, Line(HeaderText(p), p.certificate + p.key + p.record))
  }

  // ------------------------------------------------------------------ reading

  function Expect(s: string, lit: string): (rest: Option<string>) {
    if lit <= s then Some(s[|lit|..]) else None
  }

  function DigitRun(s: string): (n: nat)
    ensures n <= |s| && AllDigits(s[..n])
    ensures n < |s| ==> !IsDigit(s[n])
  {
    if s == [] || !IsDigit(s[0]) then 0
    else
      var n := DigitRun(s[1..]);
      assert s[..n + 1] == [s[0]] + s[1..][..n];
      n + 1
  }

  /** A JSON integer that is at least zero and fits in 64 signed bits. */
  function ReadNat(s: string): (r: Option<(nat, string)>) {
    var n := DigitRun(s);
    if n == 0 || (n > 1 && s[0] == '0') || DigitsValue(s[..n]) > I64_MAX then None
    else Some((DigitsValue(s[..n]), s[n..]))
  }

  function ReadHex(s: string, n: nat): (r: Option<(string, string)>) {
    if n == 0 then Some(([], s))
    else if s == [] || !IsHexDigit(s[0]) then None
    else
      var (digits, rest) :- ReadHex(s[1..], n - 1);
      Some(([s[0]] + digits, rest))
  }

  /** A 32-digit fetch id up to its closing quote (left in the rest). */
  function ReadId(s: string): (r: Option<(string, string)>) {
    var (id, rest) :- ReadHex(s, 32);
    if rest != [] && rest[0] == '"' then Some((id, rest)) else None
  }

  datatype Header = Header(c: nat, fetchId: string, t0: nat, t2: nat, k: nat, t1: nat, r: nat)

  function ReadField(s: string, tag: string): (r: Option<(nat, string)>) {
    var rest :- Expect(s, tag);
    ReadNat(rest)
  }

  function ReadHeader(s: string): (h: Option<Header>) {
    var (c, s) :- ReadField(s, C_TAG);
    var s :- Expect(s, ID_TAG);
    var (id, s) :- ReadId(s);
    var (t0, s) :- ReadField(s, T0_TAG);
    var (t2, s) :- ReadField(s, T2_TAG);
    var (k, s) :- ReadField(s, K_TAG);
    var (t1, s) :- ReadField(s, T1_TAG);
    var (r, s) :- ReadField(s, R_TAG);
    if s == "}" then Some(Header(c, id, t0, t2, k, t1, r)) else None
  }

  /** Check the header's fields and cut the three parts out of the body. */
  function CutBody(h: Header, body: string): (p: Option<Payload>)
    ensures p.Some? ==> WellFormed(p.value)
  {
    if !IsFetchId(h.fetchId) || !GoodTimes(h.t0, h.t1, h.t2) then None
    else if !(1 <= h.c <= MAX_PART && 1 <= h.k <= MAX_PART && 1 <= h.r <= MAX_PART) then None
    else if |body| != h.c + h.k + h.r then None
    else Some(Payload(h.fetchId, h.t0, h.t1, h.t2,
                      body[..h.c], body[h.c..h.c + h.k], body[h.c + h.k..]))
  }

  function Parse(data: string): (p: Option<Payload>)
    ensures p.Some? ==> WellFormed(p.value) && |data| <= MAX_PAYLOAD
  {
    if |data| > MAX_PAYLOAD then None
    else
      var (magic, rest) :- CutLine(data);
      var (header, body) :- CutLine(rest);
      if magic != MAGIC then None
      else
        var h :- ReadHeader(header);
        CutBody(h, body)
  }

  /** The text up to the first line end, and what follows it. */
  function CutLine(s: string): (r: Option<(string, string)>) {
    var i :- IndexOf(s, '\n');
    Some((s[..i], s[i + 1..]))
  }

  /** Frame a payload; nothing when the result would not parse. */
  method Encode(p: Payload) returns (r: Option<string>)
    ensures r.Some? <==> WellFormed(p) && |Framed(p)| <= MAX_PAYLOAD
    ensures r.Some? ==> r.value == Framed(p) && Parse(r.value) == Some(p)
  {
    var data := MAGIC;
    data := data + "\n";
    data := data + HeaderText(p);
    data := data + "\n";
    data := data + p.certificate;
    data := data + p.key;
    data := data + p.record;
    Reassociate(MAGIC, HeaderText(p), p.certificate, p.key, p.record);
    EncodeExactly(p);
    if Parse(data).Some? {
      r := Some(data);
    } else {
      r := None;
    }
  }

  lemma Reassociate(m: string, h: string, c: string, k: string, r: string)
    ensures m + "\n" + h + "\n" + c + k + r == Line(m, Line(h, c + k + r))
  {
  }

  // ------------------------------------------------------------------ round trip

  lemma {:induction false} DigitRunStops(s: string, rest: string)
    requires AllDigits(s)
    requires rest == [] || !IsDigit(rest[0])
    ensures DigitRun(s + rest) == |s|
  {
    if s == [] {
      assert s + rest == rest;
    } else {
      DigitRunStops(s[1..], rest);
      assert (s + rest)[1..] == s[1..] + rest;
    }
  }

  lemma ReadFieldOfField(tag: string, n: int, rest: string)
    requires rest == [] || !IsDigit(rest[0])
    ensures ReadField(Field(tag, n, rest), tag)
         == if 0 <= n <= I64_MAX then Some((n, rest)) else None
  {
    var s := Signed(n) + rest;
    assert Field(tag, n, rest)[|tag|..] == s;
    if n < 0 {
      assert s[0] == '-';
    } else {
      DigitRunStops(Decimal(n), rest);
      DecimalRoundTrip(n);
      assert s[..|Decimal(n)|] == Decimal(n) && s[|Decimal(n)|..] == rest;
    }
  }

  lemma EscapeHead(id: string, rest: string)
    requires id != []
    ensures var s := Escape(id) + rest;
            && s != []
            && (IsHexDigit(s[0]) <==> IsHexDigit(id[0]))
            && s[0] != '"'
            && (IsHexDigit(id[0]) ==> s[0] == id[0] && s[1..] == Escape(id[1..]) + rest)
  {
    var e := EscapeChar(id[0]);
    assert Escape(id) == e + Escape(id[1..]);
    HeadOf(e, Escape(id[1..]), rest);
  }

  lemma HeadOf(e: string, t: string, rest: string)
    requires e != []
    ensures (e + t + rest)[0] == e[0]
    ensures |e| == 1 ==> (e + t + rest)[1..] == t + rest
  {
  }

  lemma TakeOne(id: string, n: nat)
    requires 0 < n <= |id|
    ensures id[..n] == [id[0]] + id[1..][..n - 1] && id[1..][n - 1..] == id[n..]
    ensures AllHex(id[..n]) <==> IsHexDigit(id[0]) && AllHex(id[1..][..n - 1])
  {
    AllHexCons(id[0], id[1..][..n - 1]);
  }

  lemma AllHexCons(c: char, s: string)
    ensures AllHex([c] + s) <==> IsHexDigit(c) && AllHex(s)
  {
    assert ([c] + s)[0] == c;
    assert forall i :: 0 <= i < |s| ==> ([c] + s)[i + 1] == s[i];
  }

  lemma {:induction false} ReadHexOfEscaped(id: string, n: nat, rest: string)
    requires rest != [] && rest[0] == '"'
    ensures ReadHex(Escape(id) + rest, n) ==
            if n <= |id| && AllHex(id[..n]) then Some((id[..n], Escape(id[n..]) + rest)) else None
  {
    if n == 0 {
      assert id[0..] == id;
    } else if id == [] {
      assert Escape(id) + rest == rest;
    } else {
      EscapeHead(id, rest);
      ReadHexOfEscaped(id[1..], n - 1, rest);
      if n <= |id| {
        TakeOne(id, n);
      }
    }
  }

  lemma ReadIdOfEscaped(id: string, rest: string)
    requires rest != [] && rest[0] == '"'
    ensures ReadId(Escape(id) + rest) == if IsFetchId(id) then Some((id, rest)) else None
  {
    ReadHexOfEscaped(id, 32, rest);
    if 32 < |id| {
      EscapeHead(id[32..], rest);
    } else if |id| == 32 {
      assert id[..32] == id && id[32..] == [];
      assert Escape([]) + rest == rest;
    }
  }

  lemma ReadHeaderOfText(p: Payload)
    ensures ReadHeader(HeaderText(p)) ==
            if IsFetchId(p.fetchId)
               && 0 <= p.fetchedAt <= I64_MAX && 0 <= p.hardExpiry <= I64_MAX && 0 <= p.periodEnds <= I64_MAX
               && |p.certificate| <= I64_MAX && |p.key| <= I64_MAX && |p.record| <= I64_MAX
            then Some(Header(|p.certificate|, p.fetchId, p.fetchedAt, p.hardExpiry, |p.key|, p.periodEnds, |p.record|))
            else None
  {
    var s5 := Field(R_TAG, |p.record|, "}");
    var s4 := Field(T1_TAG, p.periodEnds, s5);
    var s3 := Field(K_TAG, |p.key|, s4);
    var s2 := Field(T2_TAG, p.hardExpiry, s3);
    var s1 := Field(T0_TAG, p.fetchedAt, s2);
    var s0 := ID_TAG + (Escape(p.fetchId) + s1);
    ReadFieldOfField(C_TAG, |p.certificate|, s0);
    assert Expect(s0, ID_TAG) == Some(Escape(p.fetchId) + s1) by {
      assert s0[|ID_TAG|..] == Escape(p.fetchId) + s1;
    }
    assert s1[0] == '"';
    ReadIdOfEscaped(p.fetchId, s1);
    ReadFieldOfField(T0_TAG, p.fetchedAt, s2);
    ReadFieldOfField(T2_TAG, p.hardExpiry, s3);
    ReadFieldOfField(K_TAG, |p.key|, s4);
    ReadFieldOfField(T1_TAG, p.periodEnds, s5);
    ReadFieldOfField(R_TAG, |p.record|, "}");
  }

  /**
   * Framing succeeds exactly on a well-formed payload of allowed total size,
   * and then parsing the frame gives back every field and all three parts,
   * whatever bytes they hold.
   */
  lemma EncodeExactly(p: Payload)
    ensures Parse(Framed(p)) ==
            if WellFormed(p) && |Framed(p)| <= MAX_PAYLOAD then Some(p) else None
  {
    var body := p.certificate + p.key + p.record;
    assert '\n' !in MAGIC;
    SplitLine(MAGIC, Line(HeaderText(p), body));
    HeaderIsOneLine(p);
    SplitLine(HeaderText(p), body);
    ParseAfterHeader(p);
  }

  /** What the header's text and the parts parse to. */
  lemma ParseAfterHeader(p: Payload)
    ensures var h := ReadHeader(HeaderText(p));
            (if h.Some? then CutBody(h.value, p.certificate + p.key + p.record) else None)
            == if WellFormed(p) then Some(p) else None
  {
    ReadHeaderOfText(p);
    var h := ReadHeader(HeaderText(p));
    if h.Some? {
      CutBodyOfParts(h.value, p);
    }
  }

  lemma CutBodyOfParts(h: Header, p: Payload)
    requires 0 <= p.fetchedAt <= I64_MAX && 0 <= p.hardExpiry <= I64_MAX && 0 <= p.periodEnds <= I64_MAX
    requires h == Header(|p.certificate|, p.fetchId, p.fetchedAt, p.hardExpiry, |p.key|, p.periodEnds, |p.record|)
    ensures CutBody(h, p.certificate + p.key + p.record) == if WellFormed(p) then Some(p) else None
  {
    var body := p.certificate + p.key + p.record;
    assert body[..h.c] == p.certificate;
    assert body[h.c..h.c + h.k] == p.key;
    assert body[h.c + h.k..] == p.record;
  }

  lemma SplitLine(line: string, rest: string)
    requires '\n' !in line
    ensures CutLine(Line(line, rest)) == Some((line, rest))
  {
    var s := Line(line, rest);
    IndexOfSplit(line, rest, '\n');
    assert s[..|line|] == line && s[|line| + 1..] == rest;
  }

  // ------------------------------------------------------------------ to the letter

  /** The header of a payload fetched at a time that is not negative, to the letter. */
  lemma HeaderToTheLetter(p: Payload)
    requires AllHex(p.fetchId) && p.fetchedAt >= 0 && p.periodEnds >= 0 && p.hardExpiry >= 0
    ensures HeaderText(p) ==
            "{\"certificate\":" + (Decimal(|p.certificate|) +
            (",\"fetch_id\":\"" + (p.fetchId +
            ("\",\"fetched_at\":" + (Decimal(p.fetchedAt) +
            (",\"hard_expiry\":" + (Decimal(p.hardExpiry) +
            (",\"key\":" + (Decimal(|p.key|) +
            (",\"period_ends\":" + (Decimal(p.periodEnds) +
            (",\"record\":" + (Decimal(|p.record|) + "}")))))))))))))
    ensures Framed(p) == "OMDROP-IDENTITY 1" + ['\n'] + (HeaderText(p) + ['\n'] + (p.certificate + p.key + p.record))
  {
    HexIsNotEscaped(p.fetchId);
  }

  lemma {:induction false} HexIsNotEscaped(s: string)
    requires AllHex(s)
    ensures Escape(s) == s
  {
    if s != [] {
      HexIsNotEscaped(s[1..]);
    }
  }
}
