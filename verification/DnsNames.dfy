/**
 * DNS names: writing them uncompressed (section 3.1 of RFC 1035), and reading
 * them with compression pointers (section 4.1.4 of RFC 1035).
 */
module DnsNames {
  import opened Basics

  const MAX_HOPS := 16

  // ------------------------------------------------------------------ writing

  predicate Printable(c: char) { ' ' <= c <= '~' }

  function FirstDot(s: string): (n: nat)
    ensures n <= |s| && (n < |s| ==> s[n] == '.')
  {
    if s == [] || s[0] == '.' then 0 else 1 + FirstDot(s[1..])
  }

  /** The pieces between dots, without the empty ones. */
  function Labels(name: string): (ls: seq<string>)
    ensures forall i :: 0 <= i < |ls| ==> ls[i] != []
    decreases |name|
  {
    if name == [] then []
    else
      var n := FirstDot(name);
      var rest := if n < |name| then Labels(name[n + 1..]) else [];
      if n == 0 then rest else [name[..n]] + rest
  }

  function Octets(piece: string): (b: Bytes)
    ensures |b| == |piece|
  {
    seq(|piece|, i requires 0 <= i < |piece| => if Printable(piece[i]) then piece[i] as int else 0)
  }

  /** Labels on the wire: each after its length, no terminator. */
  function Wire(labels: seq<Bytes>): (b: Bytes)
    requires forall i :: 0 <= i < |labels| ==> |labels[i]| < 256
  {
    if labels == [] then [] else [|labels[0]|] + labels[0] + Wire(labels[1..])
  }

  function AllOctets(labels: seq<string>): (b: seq<Bytes>)
    ensures |b| == |labels| && forall i :: 0 <= i < |labels| ==> |b[i]| == |labels[i]|
  {
    seq(|labels|, i requires 0 <= i < |labels| => Octets(labels[i]))
  }

  function WireSize(labels: seq<string>): (n: nat) {
    if labels == [] then 1 else 1 + |labels[0]| + WireSize(labels[1..])
  }

  predicate GoodName(name: string) {
    && (forall i :: 0 <= i < |name| ==> Printable(name[i]))
    && (forall i :: 0 <= i < |Labels(name)| ==> |Labels(name)[i]| <= 63)
    && WireSize(Labels(name)) <= 255
  }

  /** One pass over the labels, adding up the size on the wire. */
  method CheckName(name: string) returns (ok: bool)
    ensures ok <==> GoodName(name)
  {
    for i := 0 to |name|
      invariant forall j :: 0 <= j < i ==> Printable(name[j])
    {
      if !Printable(name[i]) {
        return false;
      }
    }
    var labels := Labels(name);
    var wire := 1;
    for i := 0 to |labels|
      invariant forall j :: 0 <= j < i ==> |labels[j]| <= 63
      invariant wire + WireSize(labels[i..]) == WireSize(labels) + 1
    {
      if |labels[i]| > 63 {
        return false;
      }
      assert labels[i..][1..] == labels[i + 1..];
      wire := wire + 1 + |labels[i]|;
    }
    ok := wire <= 255;
  }

  lemma {:induction false} WireSnoc(labels: seq<Bytes>, last: Bytes)
    requires |last| < 256 && forall i :: 0 <= i < |labels| ==> |labels[i]| < 256
    ensures Wire(labels + [last]) == Wire(labels) + ([|last|] + last)
  {
    if labels == [] {
      assert labels + [last] == [last];
      var one: seq<Bytes> := [last];
      assert one[1..] == [];
    } else {
      WireSnoc(labels[1..], last);
      assert (labels + [last])[1..] == labels[1..] + [last];
      Associative([|labels[0]|] + labels[0], Wire(labels[1..]), [|last|] + last);
    }
  }

  lemma WireNext(labels: seq<Bytes>, i: nat)
    requires i < |labels| && forall j :: 0 <= j < |labels| ==> |labels[j]| < 256
    ensures Wire(labels[..i + 1]) == Wire(labels[..i]) + ([|labels[i]|] + labels[i])
  {
    assert labels[..i + 1] == labels[..i] + [labels[i]];
    WireSnoc(labels[..i], labels[i]);
  }

  /** `dname`: the name uncompressed, or nothing when it cannot be. */
  method Dname(name: string) returns (r: Option<Bytes>)
    ensures r.Some? <==> GoodName(name)
    ensures r.Some? ==> (forall i :: 0 <= i < |Labels(name)| ==> |Labels(name)[i]| <= 63)
                        && r.value == Wire(AllOctets(Labels(name))) + [0]
  {
    var ok := CheckName(name);
    if !ok {
      return None;
    }
    var labels := Labels(name);
    var octets := AllOctets(labels);
    var out: Bytes := [];
    for i := 0 to |labels|
      invariant out == Wire(octets[..i])
    {
      WireNext(octets, i);
      out := out + ([|octets[i]|] + octets[i]);
    }
    assert octets[..|labels|] == octets;
    r := Some(out + [0]);
  }

  // ------------------------------------------------------------------ reading

  /** A byte of a label as it is read: lowercased, or the replacement character. */
  function ReadByte(b: byte): (c: char) {
    if 65 <= b <= 90 then (b + 32) as char
    else if b < 128 then b as char
    else '\U{fffd}'
  }

  function ReadLabel(b: Bytes): (s: string)
    ensures |s| == |b|
  {
    seq(|b|, i requires 0 <= i < |b| => ReadByte(b[i]))
  }

  function ReadLabels(ls: seq<Bytes>): (r: seq<string>)
    ensures |r| == |ls|
  {
    seq(|ls|, i requires 0 <= i < |ls| => ReadLabel(ls[i]))
  }

  /** The labels of the name at `off`, and the offset after its first part. */
  function ReadName(pkt: Bytes, off: nat, hops: nat): (r: Option<(seq<string>, nat)>)
    requires hops <= MAX_HOPS
    decreases MAX_HOPS - hops, |pkt| - off
  {
    if off >= |pkt| then None
    else
      var n := pkt[off];
      if n == 0 then Some(([], off + 1))
      else if n >= 0xc0 then
        if off + 1 >= |pkt| || hops + 1 > MAX_HOPS then None
        else
          var (labels, _) :- ReadName(pkt, Target(pkt, off), hops + 1);
          Some((labels, off + 2))
      else if off + 1 + n > |pkt| then None
      else
        var (labels, next) :- ReadName(pkt, off + 1 + n, hops);
        Some(([ReadLabel(pkt[off + 1..off + 1 + n])] + labels, next))
  }

  /** Where the pointer at `off` leads. */
  function Target(pkt: Bytes, off: nat): (t: nat)
    requires off + 1 < |pkt| && pkt[off] >= 0xc0
  {
    ((pkt[off] - 0xc0) as int) * 256 + pkt[off + 1]
  }

  function Dotted(labels: seq<string>): (s: string) {
    if labels == [] then []
    else if |labels| == 1 then labels[0]
    else labels[0] + "." + Dotted(labels[1..])
  }

  /** What was read so far, followed by what the rest reads. */
  function After(labels: seq<string>, next: Option<nat>, rest: Option<(seq<string>, nat)>)
    : (r: Option<(seq<string>, nat)>)
  {
    if rest.None? then None
    else Some((labels + rest.value.0, if next.Some? then next.value else rest.value.1))
  }

  lemma AfterNothing(rest: Option<(seq<string>, nat)>)
    ensures After([], None, rest) == rest
  {
    if rest.Some? {
      assert [] + rest.value.0 == rest.value.0;
    }
  }

  lemma AfterLabel(pkt: Bytes, off: nat, hops: nat, labels: seq<string>, next: Option<nat>)
    requires hops <= MAX_HOPS && off < |pkt| && 0 < pkt[off] < 0xc0 && off + 1 + pkt[off] <= |pkt|
    ensures var end := off + 1 + pkt[off];
            After(labels + [ReadLabel(pkt[off + 1..end])], next, ReadName(pkt, end, hops))
            == After(labels, next, ReadName(pkt, off, hops))
  {
    var end := off + 1 + pkt[off];
    var rest := ReadName(pkt, end, hops);
    if rest.Some? {
      Associative(labels, [ReadLabel(pkt[off + 1..end])], rest.value.0);
    }
  }

  /** `dns_name`: always ends, since every turn takes a hop or moves on in the packet. */
  method DnsName(pkt: Bytes, start: nat) returns (r: Option<(string, nat)>)
    ensures var spec := ReadName(pkt, start, 0);
            r == if spec.Some? then Some((Dotted(spec.value.0), spec.value.1)) else None
  {
    var off: nat := start;
    var labels: seq<string> := [];
    var next: Option<nat> := None;
    var hops: nat := 0;
    AfterNothing(ReadName(pkt, start, 0));
    while true
      invariant hops <= MAX_HOPS
      invariant After(labels, next, ReadName(pkt, off, hops)) == ReadName(pkt, start, 0)
      decreases MAX_HOPS - hops, |pkt| - off
    {
      if off >= |pkt| {
        return None;
      }
      var n := pkt[off];
      if n == 0 {
        off := off + 1;
        assert labels + [] == labels;
        break;
      }
      if n >= 0xc0 {
        if off + 1 >= |pkt| || hops + 1 > MAX_HOPS {
          return None;
        }
        next := if next.Some? then next else Some(off + 2);
        off := Target(pkt, off);
        hops := hops + 1;
        continue;
      }
      if off + 1 + n > |pkt| {
        return None;
      }
      AfterLabel(pkt, off, hops, labels, next);
      labels := labels + [ReadLabel(pkt[off + 1..off + 1 + n])];
      off := off + 1 + n;
    }
    r := Some((Dotted(labels), if next.Some? then next.value else off));
  }

  // ------------------------------------------------------------------ what a packet spells

  /** Label bytes the reader takes as one label. */
  predicate GoodPieces(pieces: seq<Bytes>) {
    forall i :: 0 <= i < |pieces| ==> 1 <= |pieces[i]| < 0xc0
  }

  /** How many bytes the labels take, each with its length. */
  function Span(pieces: seq<Bytes>): (n: nat) {
    if pieces == [] then 0 else 1 + |pieces[0]| + Span(pieces[1..])
  }

  /** The labels stand at `off`, written out. */
  ghost predicate Stands(pkt: Bytes, off: nat, pieces: seq<Bytes>)
    decreases |pieces|
  {
    if pieces == [] then off <= |pkt|
    else
      var end := off + 1 + |pieces[0]|;
      end <= |pkt| && pkt[off] == |pieces[0]| && pkt[off + 1..end] == pieces[0] && Stands(pkt, end, pieces[1..])
  }

  /**
   * A name at `off` in parts: each part's labels are written out, every part but
   * the last ends in a pointer to the next, the last in a zero byte.
   */
  ghost predicate Spelled(pkt: Bytes, off: nat, parts: seq<seq<Bytes>>)
    decreases |parts|
  {
    && parts != [] && GoodPieces(parts[0]) && Stands(pkt, off, parts[0])
    && var end := off + Span(parts[0]);
    && if |parts| == 1 then end < |pkt| && pkt[end] == 0
       else end + 1 < |pkt| && pkt[end] >= 0xc0 && Spelled(pkt, Target(pkt, end), parts[1..])
  }

  /** The offset after the part at `off`: after its zero byte or its pointer. */
  function EndOf(off: nat, parts: seq<seq<Bytes>>): (n: nat)
    requires parts != []
  {
    off + Span(parts[0]) + if |parts| == 1 then 1 else 2
  }

  /** The parts without the first label of the first one. */
  function DropLabel(parts: seq<seq<Bytes>>): (r: seq<seq<Bytes>>)
    requires parts != [] && parts[0] != []
  {
    [parts[0][1..]] + parts[1..]
  }

  lemma SpelledRest(pkt: Bytes, off: nat, parts: seq<seq<Bytes>>)
    requires Spelled(pkt, off, parts) && parts[0] != []
    ensures Spelled(pkt, off + 1 + |parts[0][0]|, DropLabel(parts))
    ensures EndOf(off + 1 + |parts[0][0]|, DropLabel(parts)) == EndOf(off, parts)
  {
    assert DropLabel(parts)[1..] == parts[1..];
  }

  lemma ReadLabelsCons(first: Bytes, rest: seq<Bytes>)
    ensures ReadLabels([first] + rest) == [ReadLabel(first)] + ReadLabels(rest)
  {
    assert ([first] + rest)[1..] == rest;
  }

  lemma ConcatDrop(parts: seq<seq<Bytes>>)
    requires parts != [] && parts[0] != []
    ensures Concat(parts) == [parts[0][0]] + Concat(DropLabel(parts))
  {
    assert DropLabel(parts)[1..] == parts[1..];
    assert parts[0] == [parts[0][0]] + parts[0][1..];
    Associative([parts[0][0]], parts[0][1..], Concat(parts[1..]));
  }

  /** Reading past one label. */
  lemma ReadsLabel(pkt: Bytes, off: nat, first: Bytes, hops: nat, rest: Option<(seq<string>, nat)>)
    requires hops <= MAX_HOPS && 1 <= |first| < 0xc0
    requires off + 1 + |first| <= |pkt| && pkt[off] == |first| && pkt[off + 1..off + 1 + |first|] == first
    requires ReadName(pkt, off + 1 + |first|, hops) == rest
    ensures ReadName(pkt, off, hops) ==
            if rest.Some? then Some(([ReadLabel(first)] + rest.value.0, rest.value.1)) else None
  {
  }

  /**
   * A name spelled in parts is read as all its labels, lowercased, and the offset
   * after its first part, if it uses no more pointers than are left; with more
   * it is refused.
   */
  lemma {:induction false} ReadsSpelled(pkt: Bytes, off: nat, parts: seq<seq<Bytes>>, hops: nat)
    requires hops <= MAX_HOPS && Spelled(pkt, off, parts)
    ensures ReadName(pkt, off, hops) ==
            if |parts| - 1 <= MAX_HOPS - hops then Some((ReadLabels(Concat(parts)), EndOf(off, parts))) else None
    decreases |parts|, |parts[0]|
  {
    if parts[0] != [] {
      var first := parts[0][0];
      var rest := off + 1 + |first|;
      SpelledRest(pkt, off, parts);
      ReadsSpelled(pkt, rest, DropLabel(parts), hops);
      ReadsLabel(pkt, off, first, hops, ReadName(pkt, rest, hops));
      ConcatDrop(parts);
      ReadLabelsCons(first, Concat(DropLabel(parts)));
    } else {
      ReadsEnd(pkt, off, parts, hops);
    }
  }

  lemma {:induction false} ReadsEnd(pkt: Bytes, off: nat, parts: seq<seq<Bytes>>, hops: nat)
    requires hops <= MAX_HOPS && Spelled(pkt, off, parts) && parts[0] == []
    ensures ReadName(pkt, off, hops) ==
            if |parts| - 1 <= MAX_HOPS - hops then Some((ReadLabels(Concat(parts)), EndOf(off, parts))) else None
    decreases |parts|, 0, 0
  {
    assert Concat(parts) == Concat(parts[1..]);
    if |parts| > 1 && hops < MAX_HOPS {
      ReadsSpelled(pkt, Target(pkt, off), parts[1..], hops + 1);
    }
  }

  /** The labels the reader finds before the first pointer or zero byte, and so on: a spelling. */
  lemma {:induction false} FindsSpelling(pkt: Bytes, off: nat, hops: nat) returns (parts: seq<seq<Bytes>>)
    requires hops <= MAX_HOPS && ReadName(pkt, off, hops).Some?
    ensures Spelled(pkt, off, parts) && |parts| - 1 <= MAX_HOPS - hops
    decreases MAX_HOPS - hops, |pkt| - off
  {
    var n := pkt[off];
    if n == 0 {
      parts := [[]];
    } else if n >= 0xc0 {
      var rest := FindsSpelling(pkt, Target(pkt, off), hops + 1);
      parts := [[]] + rest;
      assert parts[1..] == rest;
    } else {
      var rest := FindsSpelling(pkt, off + 1 + n, hops);
      parts := AddsLabel(pkt, off, rest);
    }
  }

  lemma AddsLabel(pkt: Bytes, off: nat, rest: seq<seq<Bytes>>) returns (parts: seq<seq<Bytes>>)
    requires off < |pkt| && 0 < pkt[off] < 0xc0 && off + 1 + pkt[off] <= |pkt|
    requires Spelled(pkt, off + 1 + pkt[off], rest)
    ensures Spelled(pkt, off, parts) && |parts| == |rest|
  {
    var first := pkt[off + 1..off + 1 + pkt[off]];
    var pieces := [first] + rest[0];
    parts := [pieces] + rest[1..];
    assert parts[1..] == rest[1..];
    assert pieces[1..] == rest[0];
    assert Stands(pkt, off, pieces) && Span(pieces) == 1 + |first| + Span(rest[0]);
  }

  /** A packet has a name at an offset exactly when it spells one there with at most sixteen pointers. */
  lemma ReadsExactly(pkt: Bytes, off: nat)
    ensures ReadName(pkt, off, 0).Some? <==> exists parts :: Spelled(pkt, off, parts) && |parts| <= MAX_HOPS + 1
  {
    if ReadName(pkt, off, 0).Some? {
      var parts := FindsSpelling(pkt, off, 0);
    }
    forall parts | Spelled(pkt, off, parts) && |parts| <= MAX_HOPS + 1
      ensures ReadName(pkt, off, 0).Some?
    {
      ReadsSpelled(pkt, off, parts, 0);
    }
  }

  // ------------------------------------------------------------------ round trip

  function LowerChar(c: char): (r: char) { if 'A' <= c <= 'Z' then c + 32 as char else c }

  function Lower(s: string): (r: string)
    ensures |r| == |s|
  {
    seq(|s|, i requires 0 <= i < |s| => LowerChar(s[i]))
  }

  function LowerAll(ls: seq<string>): (r: seq<string>) {
    seq(|ls|, i requires 0 <= i < |ls| => Lower(ls[i]))
  }

  predicate AllPrintable(s: string) { forall i :: 0 <= i < |s| ==> Printable(s[i]) }

  lemma PrintableRest(s: string, i: nat)
    requires AllPrintable(s) && i <= |s|
    ensures AllPrintable(s[i..])
  {
  }

  lemma {:induction false} LabelsPrintable(name: string, k: nat)
    requires AllPrintable(name) && k < |Labels(name)|
    ensures AllPrintable(Labels(name)[k])
    decreases |name|
  {
    var n := FirstDot(name);
    if n < |name| {
      PrintableRest(name, n + 1);
    }
    if n == 0 {
      LabelsPrintable(name[1..], k);
    } else if k > 0 {
      LabelsPrintable(name[n + 1..], k - 1);
    }
  }

  lemma ReadsBack(s: string)
    requires AllPrintable(s)
    ensures ReadLabel(Octets(s)) == Lower(s)
  {
    forall i | 0 <= i < |s|
      ensures ReadLabel(Octets(s))[i] == Lower(s)[i]
    {
      assert Printable(s[i]);
    }
  }

  /**
   * Whatever surrounds it, the name `dname` wrote is read back as its labels,
   * lowercased, joined with dots, and the offset just after it.
   */
  lemma NameRoundTrip(name: string, before: Bytes, after: Bytes)
    requires GoodName(name)
    ensures var wire := Wire(AllOctets(Labels(name))) + [0];
            ReadName(before + wire + after, |before|, 0)
            == Some((LowerAll(Labels(name)), |before| + |wire|))
  {
    var pieces := AllOctets(Labels(name));
    var wire := Wire(pieces) + [0];
    var pkt := before + wire + after;
    WrittenOut(before, pieces, after);
    ReadsSpelled(pkt, |before|, [pieces], 0);
    ConcatOne(pieces);
    PiecesReadBack(name);
  }

  lemma ConcatOne(pieces: seq<Bytes>)
    ensures Concat([pieces]) == pieces
  {
    var parts := [pieces];
    assert parts[1..] == [];
    assert pieces + [] == pieces;
  }

  lemma WrittenOut(before: Bytes, pieces: seq<Bytes>, after: Bytes)
    requires GoodPieces(pieces)
    ensures Spelled(before + (Wire(pieces) + [0]) + after, |before|, [pieces])
    ensures Span(pieces) == |Wire(pieces)|
  {
    var pkt := before + (Wire(pieces) + [0]) + after;
    assert pkt[|before|..] == Wire(pieces) + ([0] + after);
    WireStands(pkt, |before|, pieces);
    assert pkt[|before| + |Wire(pieces)|] == 0;
  }

  lemma PiecesReadBack(name: string)
    requires GoodName(name)
    ensures ReadLabels(AllOctets(Labels(name))) == LowerAll(Labels(name))
  {
    var pieces := AllOctets(Labels(name));
    forall i | 0 <= i < |pieces|
      ensures ReadLabels(pieces)[i] == LowerAll(Labels(name))[i]
    {
      LabelsPrintable(name, i);
      ReadsBack(Labels(name)[i]);
    }
  }

  /** Labels written out at `off` stand there. */
  lemma {:induction false} WireStands(pkt: Bytes, off: nat, pieces: seq<Bytes>)
    requires forall i :: 0 <= i < |pieces| ==> |pieces[i]| < 256
    requires off <= |pkt| && Wire(pieces) <= pkt[off..]
    ensures Stands(pkt, off, pieces) && Span(pieces) == |Wire(pieces)|
    decreases |pieces|
  {
    if pieces != [] {
      var first, rest := pieces[0], Wire(pieces[1..]);
      SplitWire(pkt[off..], first, rest);
      DropTwice(pkt, off, 1 + |first|);
      WireStands(pkt, off + 1 + |first|, pieces[1..]);
      assert pkt[off] == pkt[off..][0];
      assert pkt[off + 1..off + 1 + |first|] == pkt[off..][1..1 + |first|];
    }
  }

  lemma DropTwice(s: Bytes, i: nat, j: nat)
    requires i + j <= |s|
    ensures s[i..][j..] == s[i + j..]
  {
  }

  lemma SplitWire(s: Bytes, first: Bytes, rest: Bytes)
    requires |first| < 256 && [|first|] + first + rest <= s
    ensures 1 + |first| <= |s| && s[0] == |first| && s[1..1 + |first|] == first && rest <= s[1 + |first|..]
  {
    var w := [|first|] + first + rest;
    assert w[0] == |first| && w[1..1 + |first|] == first && w[1 + |first|..] == rest;
    assert s[..|w|] == w;
    assert s[..|w|][1 + |first|..] == s[1 + |first|..][..|rest|];
  }

  // ------------------------------------------------------------------ the questions of a query

  function HeaderWord(dns: Bytes, at: nat): (n: nat)
    requires at + 2 <= |dns|
  {
    (dns[at] as int) * 256 + dns[at + 1]
  }

  function NameAt(dns: Bytes, off: nat): (r: Option<(string, nat)>) {
    var (labels, next) :- ReadName(dns, off, 0);
    Some((Dotted(labels), next))
  }

  /** `count` names, each followed by four bytes of type and class. */
  function ReadQuestions(dns: Bytes, off: nat, count: nat): (r: Option<seq<string>>)
    decreases count
  {
    if count == 0 then Some([])
    else
      var (name, next) :- NameAt(dns, off);
      var rest :- ReadQuestions(dns, next + 4, count - 1);
      Some([name] + rest)
  }

  predicate IsQuery(dns: Bytes) { |dns| >= 12 && HeaderWord(dns, 2) < 0x8000 && HeaderWord(dns, 4) > 0 }

  /** `questions`: all the names, or nothing if it is no query or any name is malformed. */
  method Questions(dns: Bytes) returns (names: seq<string>)
    ensures var spec := if IsQuery(dns) then ReadQuestions(dns, 12, HeaderWord(dns, 4)) else None;
            names == if spec.Some? then spec.value else []
  {
    names := [];
    if |dns| < 12 || HeaderWord(dns, 2) >= 0x8000 || HeaderWord(dns, 4) == 0 {
      return;
    }
    var off: nat := 12;
    var count := HeaderWord(dns, 4);
    FollowNothing(ReadQuestions(dns, 12, count));
    for i := 0 to count
      invariant Follow(names, ReadQuestions(dns, off, count - i)) == ReadQuestions(dns, 12, count)
    {
      var read := DnsName(dns, off);
      if read.None? {
        return [];
      }
      var (name, next) := read.value;
      FollowName(names, name, ReadQuestions(dns, next + 4, count - i - 1));
      names := names + [name];
      off := next + 4;
    }
    assert names + [] == names;
  }

  function Follow(names: seq<string>, rest: Option<seq<string>>): (r: Option<seq<string>>) {
    if rest.Some? then Some(names + rest.value) else None
  }

  lemma FollowNothing(rest: Option<seq<string>>)
    ensures Follow([], rest) == rest
  {
    if rest.Some? {
      assert [] + rest.value == rest.value;
    }
  }

  lemma FollowName(names: seq<string>, name: string, rest: Option<seq<string>>)
    ensures Follow(names + [name], rest) == Follow(names, Follow([name], rest))
  {
    if rest.Some? {
      Associative(names, [name], rest.value);
    }
  }

  /** Questions laid out one after the other, each name within the pointer limit. */
  ghost predicate Laid(dns: Bytes, off: nat, asked: seq<seq<seq<Bytes>>>)
    decreases |asked|
  {
    asked == []
    || (Spelled(dns, off, asked[0]) && |asked[0]| <= MAX_HOPS + 1 && Laid(dns, EndOf(off, asked[0]) + 4, asked[1..]))
  }

  function AskedNames(asked: seq<seq<seq<Bytes>>>): (names: seq<string>) {
    if asked == [] then [] else [Dotted(ReadLabels(Concat(asked[0])))] + AskedNames(asked[1..])
  }

  /** A query's questions are read as exactly the names laid out in it. */
  lemma {:induction false} ReadsQuestions(dns: Bytes, off: nat, asked: seq<seq<seq<Bytes>>>)
    requires Laid(dns, off, asked)
    ensures ReadQuestions(dns, off, |asked|) == Some(AskedNames(asked))
    decreases |asked|
  {
    if asked != [] {
      ReadsSpelled(dns, off, asked[0], 0);
      ReadsQuestions(dns, EndOf(off, asked[0]) + 4, asked[1..]);
    }
  }
}
