/**
 * Reading a chunked body from a socket: `PatientReader`, `_copy_exact` and
 * `_read_chunked`. Whatever pieces the bytes arrive in and however often the
 * sender pauses, the outcome is the one `Chunked.Body` gives for the stream.
 */
module BodyReader {
  import opened Basics
  import opened Limits
  import opened Chunked

  const STEP := 3
  const READ_IDLE_TIMEOUT_SECONDS := 30
  const MAX_CHECKS := 2

  // ------------------------------------------------------------------ the socket

  /** What the socket does next: hand over bytes, or let one wait of `STEP` seconds run out. */
  datatype Event = Arrived(data: Bytes) | Quiet

  predicate Proper(events: seq<Event>) {
    forall i :: 0 <= i < |events| && events[i].Arrived? ==> events[i].data != []
  }

  function Arriving(events: seq<Event>): (s: Bytes) {
    if events == [] then []
    else (if events[0].Arrived? then events[0].data else []) + Arriving(events[1..])
  }

  /** No silence, counted from `idle` seconds of it, lasts as long as the idle timeout. */
  predicate Calm(events: seq<Event>, idle: nat) {
    if events == [] then true
    else if events[0].Arrived? then Calm(events[1..], 0)
    else idle + STEP < READ_IDLE_TIMEOUT_SECONDS && Calm(events[1..], idle + STEP)
  }

  /** A silence, counted from `idle` seconds of it, that lasts as long as the idle timeout. */
  predicate Silent(events: seq<Event>, idle: nat) {
    idle >= READ_IDLE_TIMEOUT_SECONDS || (events != [] && events[0].Quiet? && Silent(events[1..], idle + STEP))
  }

  /** Ten waits that run out are one: the idle timeout is thirty seconds in steps of three. */
  lemma {:induction false} SilentExactly(events: seq<Event>, n: nat)
    requires n <= 10
    ensures Silent(events, 3 * (10 - n)) <==> |events| >= n && forall i :: 0 <= i < n ==> events[i].Quiet?
  {
    if n > 0 && events != [] {
      SilentExactly(events[1..], n - 1);
      assert forall i :: 0 < i < |events| ==> events[i] == events[1..][i - 1];
      if events[0].Quiet? && Silent(events[1..], 3 * (10 - n) + STEP) {
        forall i | 0 <= i < n
          ensures events[i].Quiet?
        {
          assert i > 0 ==> events[i] == events[1..][i - 1];
        }
      }
    }
  }

  lemma {:induction false} CalmSooner(events: seq<Event>, idle: nat, less: nat)
    requires Calm(events, idle) && less <= idle
    ensures Calm(events, less)
  {
    if events != [] && events[0].Quiet? {
      CalmSooner(events[1..], idle + STEP, less + STEP);
    }
  }

  // ------------------------------------------------------------------ a whole archive

  /** The blocks decoding yields before it ends or fails. */
  datatype Decoded = Decoded(blocks: seq<Bytes>, fine: bool)

  /** zlib and DVZip framing, of which only the size of a single write matters here. */
  type Decoder = f: Bytes -> Decoded | forall b :: Small(f(b).blocks) witness (b => Decoded([], true))

  /** `readable`: a CPIO archive with its end-of-archive entry that reads to its end. */
  datatype Codec = Codec(decode: Decoder, readable: Bytes -> bool)

  predicate WholeArchive(codec: Codec, raw: Bytes) {
    codec.decode(raw).fine && codec.readable(Concat(codec.decode(raw).blocks))
  }

  /** Decoding these bytes stays within the limit and leaves room on the disk. */
  predicate Decodable(codec: Codec, raw: Bytes, free: nat, limit: nat) {
    var size := |Concat(codec.decode(raw).blocks)|;
    size <= limit && Roomy(free, size)
  }

  /**
   * `archive_is_complete`: says yes only to a whole archive, and to every one that
   * decodes within the limit and the disk's room; gives back the space it used.
   */
  method ArchiveIsComplete(codec: Codec, raw: Bytes, disk: Disk, limit: nat) returns (whole: bool)
    modifies disk
    ensures whole ==> WholeArchive(codec, raw)
    ensures WholeArchive(codec, raw) && Decodable(codec, raw, old(disk.free), limit) ==> whole
    ensures disk.free == old(disk.free) && disk.low >= Min(old(disk.low), MIN_FREE_BYTES)
  {
    var cpio := new File();
    var writer := new LimitedWriter(cpio, disk, limit);
    var decoded := codec.decode(raw);
    var e := writer.WriteAll(decoded.blocks);
    assert [] + Concat(decoded.blocks) == Concat(decoded.blocks);
    whole := e.None? && decoded.fine && codec.readable(cpio.data);
    disk.Release(|cpio.data|);
  }

  // ------------------------------------------------------------------ the reader

  datatype Call = Peek | Read1(n: nat)

  datatype Reply = Ready(data: Bytes) | IdleTimeout | Whole

  class PatientReader {
    /** The size of the buffer in front of the socket. */
    const capacity: nat
    const raw: File
    const disk: Disk
    const limit: nat
    const codec: Codec
    var buffer: Bytes
    var events: seq<Event>
    var checksLeft: nat
    /** What was stored at each completeness check so far. */
    ghost var checks: seq<Bytes>

    constructor (capacity: nat, raw: File, disk: Disk, limit: nat, codec: Codec, events: seq<Event>)
      requires capacity > 0 && Proper(events)
      ensures Valid() && this.raw == raw && this.disk == disk && this.codec == codec
      ensures Pending() == Arriving(events) && this.events == events && checks == []
    {
      this.capacity, this.raw, this.disk, this.limit, this.codec := capacity, raw, disk, limit, codec;
      buffer, this.events, checksLeft, checks := [], events, MAX_CHECKS, [];
    }

    ghost predicate Valid()
      reads this
    {
      capacity > 0 && Proper(events) && checksLeft + |checks| == MAX_CHECKS
    }

    /** Every byte still to be read. */
    ghost function Pending(): (s: Bytes)
      reads this
    {
      buffer + Arriving(events)
    }

    /** One try of `peek` or `read1`; no result when the wait ran out, which consumes nothing. */
    method Attempt(call: Call, ghost idle: nat) returns (r: Option<Bytes>)
      requires Valid() && (call.Read1? ==> call.n > 0)
      modifies this`buffer, this`events
      ensures Valid() && |events| <= |old(events)|
      ensures r.None? ==> Pending() == old(Pending()) && |events| < |old(events)|
      ensures r.None? && Calm(old(events), idle) ==>
                idle + STEP < READ_IDLE_TIMEOUT_SECONDS && Calm(events, idle + STEP)
      ensures r.Some? && Calm(old(events), idle) ==> Calm(events, 0)
      ensures r.Some? && call.Peek? ==> Pending() == old(Pending()) && r.value == buffer
      ensures r.Some? && call.Read1? ==> old(Pending()) == r.value + Pending() && |r.value| <= call.n
      ensures r.Some? ==> (r.value == [] <==> old(Pending()) == [])
      ensures old(buffer) == [] && old(events) != [] && old(events)[0].Quiet? ==>
                r.None? && buffer == [] && events == old(events)[1..]
    {
      if buffer != [] {
        ghost var arriving := Arriving(events);
        if Calm(events, idle) {
          CalmSooner(events, idle, 0);
        }
        if call.Peek? {
          return Some(buffer);
        }
        var k := Min(call.n, |buffer|);
        r := Some(buffer[..k]);
        SplitFront(buffer, k, arriving);
        buffer := buffer[k..];
        return;
      }
      if events == [] {
        return Some([]);
      }
      if events[0].Quiet? {
        events := events[1..];
        return None;
      }
      var data := events[0].data;
      var k := Min(if call.Peek? then capacity else call.n, |data|);
      HandOver(events, k, idle);
      r := Some(data[..k]);
      events := Left(events, k);
      if call.Peek? {
        buffer := data[..k];
      }
    }

    /**
     * `_call`: tries until bytes or the end of the stream come, for less than the
     * idle timeout, looking at most once whether the archive is whole already. A
     * sender that is quiet over a whole archive ends it there, and one that is silent
     * for the whole idle timeout in any case.
     */
    method Call(call: Call, mayCheck: bool) returns (reply: Reply)
      requires Valid() && (call.Read1? ==> call.n > 0)
      modifies this, disk
      ensures Valid()
      ensures !reply.Ready? ==> Pending() == old(Pending())
      ensures reply.Ready? && call.Peek? ==> Pending() == old(Pending()) && reply.data == buffer
      ensures reply.Ready? && call.Read1? ==> old(Pending()) == reply.data + Pending() && |reply.data| <= call.n
      ensures reply.Ready? ==> (reply.data == [] <==> old(Pending()) == [])
      ensures Calm(old(events), 0) ==> reply != IdleTimeout && (reply.Ready? ==> Calm(events, 0))
      ensures reply.Whole? ==> mayCheck && WholeArchive(codec, raw.data)
      ensures CheckedOnce(old(checks), mayCheck)
      ensures mayCheck && old(QuietOverWhole()) ==> reply.Whole?
      ensures old(buffer) == [] && Silent(old(events), 0) ==> !reply.Ready?
      ensures disk.free == old(disk.free) && disk.low >= Min(old(disk.low), MIN_FREE_BYTES)
    {
      var idle: nat := 0;
      var checked := !mayCheck;
      while true
        invariant Valid() && idle < READ_IDLE_TIMEOUT_SECONDS
        invariant Pending() == old(Pending())
        invariant Calm(old(events), 0) ==> Calm(events, idle)
        invariant CheckedOnce(old(checks), mayCheck) && (!checked ==> mayCheck && checks == old(checks))
        invariant mayCheck && old(QuietOverWhole()) ==> !checked && QuietOverWhole()
        invariant old(buffer) == [] && Silent(old(events), 0) ==> buffer == [] && Silent(events, idle)
        invariant disk.free == old(disk.free) && disk.low >= Min(old(disk.low), MIN_FREE_BYTES)
        decreases |events|
      {
        var r := Attempt(call, idle);
        if r.Some? {
          return Ready(r.value);
        }
        idle := idle + STEP;
        if !checked && checksLeft > 0 {
          checked := true;
          var whole := Check();
          if whole {
            return Whole;
          }
        }
        if idle >= READ_IDLE_TIMEOUT_SECONDS {
          return IdleTimeout;
        }
      }
    }

    /** Nothing has arrived, the sender is quiet, a check is left and would find the archive whole. */
    ghost predicate QuietOverWhole()
      reads this, disk, raw
    {
      && buffer == [] && events != [] && events[0].Quiet? && checksLeft > 0
      && WholeArchive(codec, raw.data) && Decodable(codec, raw.data, disk.free, limit)
    }

    /** One of the completeness checks. */
    method Check() returns (whole: bool)
      requires Valid() && checksLeft > 0
      modifies this`checksLeft, this`checks, disk
      ensures Valid() && checks == old(checks) + [raw.data]
      ensures whole ==> WholeArchive(codec, raw.data)
      ensures WholeArchive(codec, raw.data) && Decodable(codec, raw.data, old(disk.free), limit) ==> whole
      ensures disk.free == old(disk.free) && disk.low >= Min(old(disk.low), MIN_FREE_BYTES)
    {
      checksLeft := checksLeft - 1;
      checks := checks + [raw.data];
      whole := ArchiveIsComplete(codec, raw.data, disk, limit);
    }

    /** At most one completeness check was added, of what is stored now, and none unless allowed. */
    ghost predicate CheckedOnce(before: seq<Bytes>, allowed: bool)
      reads this, raw
    {
      checks == before || (allowed && checks == before + [raw.data])
    }

    /** Only completeness checks of what is stored now were added. */
    ghost predicate Checked(before: seq<Bytes>)
      reads this, raw
    {
      before <= checks && forall i :: |before| <= i < |checks| ==> checks[i] == raw.data
    }

    /** `rfile.read` of bytes that are in the buffer. */
    method FromBuffer(n: nat) returns (data: Bytes)
      requires Valid() && n <= |buffer|
      modifies this`buffer
      ensures Valid() && data == old(buffer)[..n] && buffer == old(buffer)[n..]
      ensures old(Pending()) == data + Pending()
    {
      SplitFront(buffer, n, Arriving(events));
      data := buffer[..n];
      buffer := buffer[n..];
    }

    /** What is wanted of the buffer, up to a newline if that ends it. */
    method Piece(want: nat, stopAtNewline: bool) returns (data: Bytes, ended: bool)
      requires Valid() && buffer != [] && want > 0
      modifies this`buffer
      ensures Valid() && old(Pending()) == data + Pending() && 0 < |data| <= want
      ensures ended ==> stopAtNewline && Ended(data)
      ensures !ended && stopAtNewline ==> NL !in data
    {
      var n := Min(|buffer|, want);
      if stopAtNewline {
        var ready := buffer[..n];
        var i := FindNewline(ready);
        if i < n {
          assert buffer[..i + 1][..i] == ready[..i];
          data := FromBuffer(i + 1);
          return data, true;
        }
        assert ready[..i] == ready;
      }
      data := FromBuffer(n);
      ended := false;
    }

    /** Waits for bytes and takes what is wanted of them; none at the end of the stream. */
    method Gather(want: nat, stopAtNewline: bool, mayCheck: bool) returns (piece: Reply, ended: bool)
      requires Valid() && want > 0
      modifies this, disk
      ensures Valid()
      ensures !piece.Ready? ==> Pending() == old(Pending())
      ensures piece.Ready? ==> old(Pending()) == piece.data + Pending() && |piece.data| <= want
      ensures piece.Ready? ==> (piece.data == [] <==> old(Pending()) == [])
      ensures piece.Ready? && ended ==> stopAtNewline && Ended(piece.data)
      ensures piece.Ready? && !ended && stopAtNewline ==> NL !in piece.data
      ensures piece.Whole? ==> mayCheck && WholeArchive(codec, raw.data)
      ensures Calm(old(events), 0) ==> piece != IdleTimeout && (piece.Ready? ==> Calm(events, 0))
      ensures CheckedOnce(old(checks), mayCheck)
      ensures mayCheck && old(QuietOverWhole()) ==> piece.Whole?
      ensures old(buffer) == [] && Silent(old(events), 0) ==> !piece.Ready?
      ensures disk.free == old(disk.free) && disk.low >= Min(old(disk.low), MIN_FREE_BYTES)
    {
      ended := false;
      piece := Call(Peek, mayCheck);
      if piece.Ready? && piece.data != [] {
        var data;
        data, ended := Piece(want, stopAtNewline);
        piece := Ready(data);
      }
    }

    /** `_take`: a line or a number of bytes, the same for every fragmentation. */
    method Take(size: nat, stopAtNewline: bool) returns (reply: Reply)
      requires Valid()
      modifies this, disk
      ensures Valid()
      ensures reply.Ready? ==> old(Pending()) == reply.data + Pending()
      ensures reply.Ready? && stopAtNewline ==> |reply.data| == LineLength(old(Pending()), size)
      ensures reply.Ready? && !stopAtNewline ==> |reply.data| == Min(size, |old(Pending())|)
      ensures reply.Whole? ==> stopAtNewline && Pending() == old(Pending()) && WholeArchive(codec, raw.data)
      ensures Calm(old(events), 0) ==> reply != IdleTimeout && (reply.Ready? ==> Calm(events, 0))
      ensures CheckedOnce(old(checks), stopAtNewline)
      ensures stopAtNewline && size > 0 && old(QuietOverWhole()) ==> reply.Whole?
      ensures size > 0 && old(buffer) == [] && Silent(old(events), 0) ==> !reply.Ready?
      ensures disk.free == old(disk.free) && disk.low >= Min(old(disk.low), MIN_FREE_BYTES)
    {
      var out: Bytes := [];
      ghost var s := Pending();
      while |out| < size
        invariant Valid() && |out| <= size
        invariant s == out + Pending() && (stopAtNewline ==> NL !in out)
        invariant Calm(old(events), 0) ==> Calm(events, 0)
        invariant CheckedOnce(old(checks), stopAtNewline) && (out == [] ==> checks == old(checks))
        invariant stopAtNewline && size > 0 && old(QuietOverWhole()) ==> out == [] && QuietOverWhole()
        invariant size > 0 && old(buffer) == [] && Silent(old(events), 0) ==>
                    out == [] && buffer == [] && Silent(events, 0)
        invariant disk.free == old(disk.free) && disk.low >= Min(old(disk.low), MIN_FREE_BYTES)
      {
        var piece, ended := Gather(size - |out|, stopAtNewline, stopAtNewline && out == []);
        if !piece.Ready? {
          return piece;
        }
        if piece.data == [] {
          break;
        }
        Associative(out, piece.data, Pending());
        if ended {
          LineTaken(out, piece.data, Pending(), s, size);
          return Ready(out + piece.data);
        }
        out := out + piece.data;
      }
      if stopAtNewline {
        LineCut(out, Pending(), s, size);
      }
      reply := Ready(out);
    }
  }

  /** `find`: where the first newline is, or the length when there is none. */
  method FindNewline(s: Bytes) returns (i: nat)
    ensures i <= |s| && NL !in s[..i] && (i < |s| ==> s[i] == NL)
  {
    i := 0;
    while i < |s| && s[i] != NL
      invariant i <= |s| && NL !in s[..i]
    {
      assert s[..i + 1] == s[..i] + [s[i]];
      i := i + 1;
    }
  }

  lemma LineTaken(out: Bytes, line: Bytes, rest: Bytes, s: Bytes, size: nat)
    requires s == out + (line + rest) && NL !in out
    requires Ended(line) && |out + line| <= size
    ensures |out + line| == LineLength(s, size)
  {
    var n := |out + line|;
    assert s[..n - 1] == out + line[..|line| - 1];
    assert forall i :: 0 <= i < n - 1 ==> s[i] == s[..n - 1][i];
    assert s[n - 1] == line[|line| - 1];
    LineUnique(s, size, n);
  }

  lemma LineCut(out: Bytes, rest: Bytes, s: Bytes, size: nat)
    requires s == out + rest && NL !in out && |out| <= size && (|out| == size || rest == [])
    ensures |out| == LineLength(s, size)
  {
    assert forall i :: 0 <= i < |out| ==> s[i] == out[i];
    LineUnique(s, size, |out|);
  }

  /** The events once the first arrival gave `k` of its bytes. */
  function Left(events: seq<Event>, k: nat): (r: seq<Event>)
    requires events != [] && events[0].Arrived? && k <= |events[0].data|
  {
    if k == |events[0].data| then events[1..] else [Arrived(events[0].data[k..])] + events[1..]
  }

  lemma SplitFront(a: Bytes, k: nat, b: Bytes)
    requires k <= |a|
    ensures a + b == a[..k] + (a[k..] + b)
  {
  }

  lemma HandOver(events: seq<Event>, k: nat, idle: nat)
    requires Proper(events) && events != [] && events[0].Arrived? && 0 < k <= |events[0].data|
    ensures var left := Left(events, k);
            && Proper(left) && |left| <= |events|
            && Arriving(events) == events[0].data[..k] + Arriving(left)
            && (Calm(events, idle) ==> Calm(left, 0))
  {
    var data, more := events[0].data, events[1..];
    var left := Left(events, k);
    if k == |data| {
      assert data[..k] == data;
    } else {
      assert left[1..] == more;
      SplitFront(data, k, Arriving(more));
    }
  }

  // ------------------------------------------------------------------ the body

  /** How reading a body ends; `ArchiveWhole` is `BodyComplete`. */
  datatype End = Read | Malformed | Oversized | TimedOut | ArchiveWhole | Stopped(error: WriteError)

  function EndOf(reply: Reply): (e: End) {
    match reply
    case Ready(_) => Read
    case IdleTimeout => TimedOut
    case Whole => ArchiveWhole
  }

  /** One turn of `_copy_exact`: stores what has arrived of the next bytes. */
  method CopySome(reader: PatientReader, writer: LimitedWriter, left: nat) returns (stop: Option<End>, data: Bytes)
    requires reader.Valid() && writer.Funded() && writer.target == reader.raw && writer.disk == reader.disk && left > 0
    modifies reader, writer, writer.target, writer.disk
    ensures reader.Valid() && writer.Funded() && reader.checks == old(reader.checks)
    ensures 0 <= |data| <= left && (stop.None? ==> data != [])
    ensures stop.None? ==> old(reader.Pending()) == data + reader.Pending()
    ensures stop.Some? ==> data == []
    ensures stop == Some(Malformed) ==> old(reader.Pending()) == []
    ensures stop.None? || stop.value in {Malformed, TimedOut} || stop.value.Stopped?
    ensures writer.target.data == old(writer.target.data) + data
    ensures writer.total == old(writer.total) + |data| && writer.disk.free == old(writer.disk.free) - |data|
    ensures writer.disk.low >= Min(old(writer.disk.low), MIN_FREE_BYTES)
    ensures Calm(old(reader.events), 0) ==> stop != Some(TimedOut) && (stop.None? ==> Calm(reader.events, 0))
    ensures Ample(old(writer.Books()), left) ==> stop.None? || !stop.value.Stopped?
  {
    var reply := reader.Call(Read1(Min(left, IO_CHUNK_BYTES)), false);
    if !reply.Ready? {
      return Some(TimedOut), [];
    }
    if reply.data == [] {
      return Some(Malformed), [];
    }
    var e := writer.Write(reply.data);
    if e.Some? {
      return Some(Stopped(e.value)), [];
    }
    return None, reply.data;
  }

  /**
   * `_copy_exact`: stores exactly the next `size` bytes; if the stream ends first,
   * all there are.
   */
  method CopyExact(reader: PatientReader, writer: LimitedWriter, size: nat) returns (end: End)
    requires reader.Valid() && writer.Funded() && writer.target == reader.raw && writer.disk == reader.disk
    modifies reader, writer, writer.target, writer.disk
    ensures reader.Valid() && writer.Funded() && reader.checks == old(reader.checks)
    ensures writer.total - old(writer.total) == |writer.target.data| - |old(writer.target.data)|
            == old(writer.disk.free) - writer.disk.free
    ensures writer.disk.low >= Min(old(writer.disk.low), MIN_FREE_BYTES)
    ensures end == Read ==>
              && size <= |old(reader.Pending())| && reader.Pending() == old(reader.Pending())[size..]
              && writer.target.data == old(writer.target.data) + old(reader.Pending())[..size]
    ensures end == Malformed ==>
              size > |old(reader.Pending())| && writer.target.data == old(writer.target.data) + old(reader.Pending())
    ensures Calm(old(reader.events), 0) ==> end != TimedOut && (end == Read ==> Calm(reader.events, 0))
    ensures end != Oversized && end != ArchiveWhole
    ensures Ample(old(writer.Books()), size) ==> !end.Stopped?
  {
    ghost var s, before, books := reader.Pending(), writer.target.data, writer.Books();
    ghost var got: Bytes := [];
    var left := size;
    while left > 0
      invariant reader.Valid() && writer.Funded() && reader.checks == old(reader.checks)
      invariant 0 <= left <= size && |got| + left == size
      invariant s == got + reader.Pending() && writer.target.data == before + got
      invariant writer.total == books.total + |got| && writer.disk.free == books.free - |got|
      invariant writer.disk.low >= Min(old(writer.disk.low), MIN_FREE_BYTES)
      invariant Calm(old(reader.events), 0) ==> Calm(reader.events, 0)
    {
      var stop, data := CopySome(reader, writer, left);
      if stop.Some? {
        return stop.value;
      }
      Associative(got, data, reader.Pending());
      Associative(before, got, data);
      got := got + data;
      left := left - |data|;
    }
    assert got == s[..size] && reader.Pending() == s[size..];
    end := Read;
  }

  /** Room in the ledger, and on the disk, for this much and one more check. */
  predicate Ample(l: Ledger, size: int) {
    size <= l.limit - l.total && l.free >= MIN_FREE_BYTES + DISK_CHECK_INTERVAL + size
  }

  /** A chunk-size line; a sender that is quiet here over a whole archive ends it. */
  method ReadHeader(reader: PatientReader) returns (end: End, size: nat, ghost line: Bytes)
    requires reader.Valid()
    modifies reader, reader.disk
    ensures reader.Valid() && reader.CheckedOnce(old(reader.checks), true)
    ensures reader.disk.free == old(reader.disk.free) && reader.disk.low >= Min(old(reader.disk.low), MIN_FREE_BYTES)
    ensures end == Read ==>
              Header(old(reader.Pending())) == Some((size, |line|)) && old(reader.Pending()) == line + reader.Pending()
    ensures end == Malformed ==> Header(old(reader.Pending())).None?
    ensures end == ArchiveWhole ==> WholeArchive(reader.codec, reader.raw.data)
    ensures Calm(old(reader.events), 0) ==> end != TimedOut && (end == Read ==> Calm(reader.events, 0))
    ensures old(reader.QuietOverWhole()) ==> end == ArchiveWhole
    ensures end != Oversized && !end.Stopped?
  {
    ghost var s := reader.Pending();
    var reply := reader.Take(MAX_CHUNK_LINE_BYTES + 1, true);
    if !reply.Ready? {
      return EndOf(reply), 0, [];
    }
    line := reply.data;
    AfterLine(s, line, reader.Pending());
    var parsed := LineSize(reply.data);
    end, size := if parsed.None? then Malformed else Read, if parsed.None? then 0 else parsed.value;
  }

  /** The size a line gives, when it is one the reader accepts. */
  function LineSize(line: Bytes): (r: Option<nat>) {
    if line == [] || |line| > MAX_CHUNK_LINE_BYTES || line[|line| - 1] != NL then None
    else
      var size := SizeOf(line);
      if size.None? || size.value < 0 then None else Some(size.value)
  }

  lemma AfterLine(s: Bytes, line: Bytes, rest: Bytes)
    requires s == line + rest && |line| == LineLength(s, MAX_CHUNK_LINE_BYTES + 1)
    ensures LineSize(line).None? ==> Header(s).None?
    ensures LineSize(line).Some? ==> Header(s) == Some((LineSize(line).value, |line|))
  {
    assert line == s[..|line|];
  }

  /** One trailer line; no end when more must follow. */
  method TrailerLine(reader: PatientReader, used: nat) returns (end: Option<End>, n: nat, ghost line: Bytes)
    requires reader.Valid()
    modifies reader, reader.disk
    ensures reader.Valid() && reader.CheckedOnce(old(reader.checks), true)
    ensures reader.disk.free == old(reader.disk.free) && reader.disk.low >= Min(old(reader.disk.low), MIN_FREE_BYTES)
    ensures end == Some(ArchiveWhole) ==> WholeArchive(reader.codec, reader.raw.data)
    ensures end != Some(ArchiveWhole) && end != Some(TimedOut) ==>
              n == |line| && NextTrailer(old(reader.Pending()), used, line, reader.Pending(), end)
    ensures Calm(old(reader.events), 0) ==> end != Some(TimedOut) && (end.None? ==> Calm(reader.events, 0))
  {
    var reply := reader.Take(MAX_CHUNK_LINE_BYTES + 1, true);
    if !reply.Ready? {
      return Some(EndOf(reply)), 0, [];
    }
    line := reply.data;
    end, n := TrailerEnd(reply.data, used), |reply.data|;
  }

  /** Whether a line ends the trailers. */
  function TrailerEnd(line: Bytes, used: nat): (r: Option<End>)
    ensures r.None? || r == Some(Malformed) || r == Some(Read)
  {
    if line == [] || |line| > MAX_CHUNK_LINE_BYTES || used + |line| > MAX_TRAILER_BYTES then Some(Malformed)
    else if Blank(line) then Some(Read)
    else None
  }

  /** Trailer lines read one after the other, none of them the last. */
  datatype Lines = NoLine | Line(before: Lines, line: Bytes, rest: Bytes) {
    function Used(): (n: nat) { if NoLine? then 0 else before.Used() + |line| }

    function Rest(s: Bytes): (r: Bytes) { if NoLine? then s else rest }

    predicate Of(s: Bytes) {
      NoLine? || (before.Of(s) && NextTrailer(before.Rest(s), before.Used(), line, rest, None))
    }
  }

  /** `t` starts with this line, which ends the trailers as `end` says. */
  predicate NextTrailer(t: Bytes, used: nat, line: Bytes, rest: Bytes, end: Option<End>) {
    t == line + rest && |line| == LineLength(t, MAX_CHUNK_LINE_BYTES + 1) && end == TrailerEnd(line, used)
  }

  /** The trailer lines after the closing size line. */
  method ReadTrailers(reader: PatientReader) returns (end: End, ghost lines: Lines, ghost line: Bytes)
    requires reader.Valid()
    modifies reader, reader.disk
    ensures reader.Valid() && reader.Checked(old(reader.checks))
    ensures reader.disk.free == old(reader.disk.free) && reader.disk.low >= Min(old(reader.disk.low), MIN_FREE_BYTES)
    ensures end == Read || end == Malformed ==>
              && lines.Of(old(reader.Pending()))
              && NextTrailer(lines.Rest(old(reader.Pending())), lines.Used(), line, reader.Pending(), Some(end))
    ensures end == ArchiveWhole ==> WholeArchive(reader.codec, reader.raw.data)
    ensures Calm(old(reader.events), 0) ==> end != TimedOut
    ensures end != Oversized && !end.Stopped?
  {
    ghost var s := reader.Pending();
    var trailers: nat := 0;
    lines := NoLine;
    while true
      invariant reader.Valid() && reader.Checked(old(reader.checks))
      invariant reader.disk.free == old(reader.disk.free)
      invariant reader.disk.low >= Min(old(reader.disk.low), MIN_FREE_BYTES)
      invariant lines.Of(s) && lines.Rest(s) == reader.Pending() && lines.Used() == trailers
      invariant Calm(old(reader.events), 0) ==> Calm(reader.events, 0)
      decreases |reader.Pending()|
    {
      var done, n;
      done, n, line := TrailerLine(reader, trailers);
      if done.Some? {
        return done.value, lines, line;
      }
      lines := Line(lines, line, reader.Pending());
      trailers := trailers + n;
    }
  }

  lemma AfterTrailer(t: Bytes, used: nat, line: Bytes, rest: Bytes, end: Option<End>)
    requires NextTrailer(t, used, line, rest, end)
    ensures end == Some(Malformed) ==> Trailers(t, used) == Bad([])
    ensures end == Some(Read) ==> Trailers(t, used) == Finished([], rest)
    ensures end.None? ==> Trailers(t, used) == Trailers(rest, used + |line|)
  {
    assert line == t[..|line|] && rest == t[|line|..];
  }

  lemma {:induction false} AfterTrailers(s: Bytes, lines: Lines)
    requires lines.Of(s)
    ensures Trailers(s, 0) == Trailers(lines.Rest(s), lines.Used())
  {
    if lines.Line? {
      AfterTrailers(s, lines.before);
      AfterTrailer(lines.before.Rest(s), lines.before.Used(), lines.line, lines.rest, None);
    }
  }

  /** What the lines read, and the one that ended them, make of the trailers. */
  lemma TrailersRead(s: Bytes, lines: Lines, line: Bytes, rest: Bytes, end: End)
    requires lines.Of(s) && NextTrailer(lines.Rest(s), lines.Used(), line, rest, Some(end))
    ensures Trailers(s, 0) == if end == Read then Finished([], rest) else Bad([])
  {
    AfterTrailers(s, lines);
    AfterTrailer(lines.Rest(s), lines.Used(), line, rest, Some(end));
  }

  /** A chunk's data and the line end behind it. */
  method ReadData(reader: PatientReader, writer: LimitedWriter, size: nat) returns (end: End)
    requires reader.Valid() && writer.Funded() && writer.target == reader.raw && writer.disk == reader.disk
    modifies reader, writer, writer.target, writer.disk
    ensures reader.Valid() && writer.Funded() && reader.checks == old(reader.checks)
    ensures writer.total - old(writer.total) == |writer.target.data| - |old(writer.target.data)|
            == old(writer.disk.free) - writer.disk.free
    ensures writer.disk.low >= Min(old(writer.disk.low), MIN_FREE_BYTES)
    ensures end == Read ==>
              && size <= |old(reader.Pending())|
              && NextData(old(reader.Pending()), size) == Chunk(old(reader.Pending())[..size], reader.Pending())
              && writer.target.data == old(writer.target.data) + old(reader.Pending())[..size]
    ensures end == Malformed ==>
              exists b ::
                && NextData(old(reader.Pending()), size) == Chunked.End(Bad(b))
                && writer.target.data == old(writer.target.data) + b
    ensures Calm(old(reader.events), 0) ==> end != TimedOut && (end == Read ==> Calm(reader.events, 0))
    ensures end != Oversized && end != ArchiveWhole
    ensures Ample(old(writer.Books()), size) ==> !end.Stopped?
  {
    ghost var t := reader.Pending();
    end := CopyExact(reader, writer, size);
    if end != Read {
      assert end == Malformed ==> NextData(t, size) == Chunked.End(Bad(t));
      return;
    }
    var ending := reader.Take(2, false);
    if !ending.Ready? {
      return TimedOut;
    }
    AfterData(t, size, ending.data, reader.Pending());
    end := if ending.data != CRLF then Malformed else Read;
  }

  lemma AfterData(t: Bytes, size: nat, ending: Bytes, rest: Bytes)
    requires size <= |t| && t[size..] == ending + rest && |ending| == Min(2, |t[size..]|)
    ensures NextData(t, size) == if ending == CRLF then Chunk(t[..size], rest) else Chunked.End(Bad(t[..size]))
  {
    if |ending| == 2 {
      assert t[size] == ending[0] && t[size + 1] == ending[1];
      assert t[size + 2..] == t[size..][2..] == rest;
      assert ending == [ending[0], ending[1]];
    }
  }

  lemma NextFromHeader(s: Bytes, line: Bytes, size: nat, t: Bytes, room: int)
    requires Header(s) == Some((size, |line|)) && s == line + t
    ensures size == 0 ==> NextChunk(s, room) == Chunked.End(Trailers(t, 0))
    ensures 0 < size && size > room ==> NextChunk(s, room) == Chunked.End(TooLarge([]))
    ensures 0 < size <= room ==> NextChunk(s, room) == NextData(t, size)
  {
    assert t == s[|line|..];
  }

  /** The end that the stream calls for, with the bytes stored that it calls for. */
  ghost predicate Settles(end: End, p: Parsed, before: Bytes, now: Bytes, rest: Bytes) {
    && now == before + p.body
    && match p
       case Finished(_, r) => end == Read && rest == r
       case Bad(_) => end == Malformed
       case TooLarge(_) => end == Oversized
  }

  predicate Settled(end: End) { end == Read || end == Malformed || end == Oversized }

  /** New checks since `before`, all made with `stored` stored. */
  ghost predicate ChecksOf(before: seq<Bytes>, checks: seq<Bytes>, stored: Bytes) {
    before <= checks && forall i :: |before| <= i < |checks| ==> checks[i] == stored
  }

  /** After a size line of zero. */
  method ReadClosing(reader: PatientReader, ghost s: Bytes, ghost line: Bytes, ghost room: int) returns (end: End)
    requires reader.Valid() && Header(s) == Some((0, |line|)) && s == line + reader.Pending()
    modifies reader, reader.disk
    ensures reader.Valid() && ChecksOf(old(reader.checks), reader.checks, reader.raw.data)
    ensures reader.disk.free == old(reader.disk.free) && reader.disk.low >= Min(old(reader.disk.low), MIN_FREE_BYTES)
    ensures Settled(end) ==>
              && NextChunk(s, room).End?
              && Settles(end, NextChunk(s, room).parsed, reader.raw.data, reader.raw.data, reader.Pending())
    ensures end == ArchiveWhole ==> WholeArchive(reader.codec, reader.raw.data)
    ensures Calm(old(reader.events), 0) ==> end != TimedOut
    ensures !end.Stopped?
  {
    ghost var t := reader.Pending();
    ghost var lines, last;
    end, lines, last := ReadTrailers(reader);
    NextFromHeader(s, line, 0, t, room);
    if Settled(end) {
      TrailersRead(t, lines, last, reader.Pending(), end);
    }
  }

  /** One turn of the loop: a whole chunk, or no more. */
  method ReadChunk(ghost next: Stepper, reader: PatientReader, writer: LimitedWriter)
    returns (end: Option<End>, ghost data: Bytes)
    requires Grammar(next)
    requires reader.Valid() && writer.Funded() && writer.target == reader.raw && writer.disk == reader.disk
    modifies reader, writer, writer.target, writer.disk
    ensures reader.Valid() && writer.Funded()
    ensures ChecksOf(old(reader.checks), reader.checks, old(writer.target.data))
    ensures writer.total - old(writer.total) == |writer.target.data| - |old(writer.target.data)|
            == old(writer.disk.free) - writer.disk.free
    ensures writer.disk.low >= Min(old(writer.disk.low), MIN_FREE_BYTES)
    ensures end.None? ==>
              && Head(next, old(reader.Pending()), old(writer.Remaining())) == Chunk(data, reader.Pending())
              && |reader.Pending()| < |old(reader.Pending())|
              && writer.target.data == old(writer.target.data) + data
    ensures end.Some? && Settled(end.value) ==>
              && Head(next, old(reader.Pending()), old(writer.Remaining())).End?
              && Settles(end.value, Head(next, old(reader.Pending()), old(writer.Remaining())).parsed,
                         old(writer.target.data), writer.target.data, reader.Pending())
    ensures end == Some(ArchiveWhole) ==>
              writer.target.data == old(writer.target.data) && WholeArchive(reader.codec, writer.target.data)
    ensures old(reader.QuietOverWhole()) ==> end == Some(ArchiveWhole)
    ensures Calm(old(reader.events), 0) ==> end != Some(TimedOut) && (end.None? ==> Calm(reader.events, 0))
    ensures end.Some? && end.value.Stopped? ==> !Ample(old(writer.Books()), old(writer.Remaining()))
  {
    ghost var s := reader.Pending();
    var room := writer.Remaining();
    assert Look(s, room);
    var stop, size;
    ghost var line;
    stop, size, line := ReadHeader(reader);
    if stop != Read {
      return Some(stop), [];
    }
    if size == 0 {
      stop := ReadClosing(reader, s, line, room);
      return Some(stop), [];
    }
    ghost var t := reader.Pending();
    NextFromHeader(s, line, size, t, room);
    if size > room {
      return Some(Oversized), [];
    }
    stop := ReadData(reader, writer, size);
    if stop != Read {
      return Some(stop), [];
    }
    return None, t[..size];
  }

  /** What is stored is what was there before and the first whole chunks of the stream. */
  ghost predicate AtBoundary(next: Stepper, s: Bytes, room: int, before: Bytes, stored: Bytes) {
    exists chunks: Chunks :: chunks.Of(next, s, room) && stored == before + chunks.Body()
  }

  /** Every check since `old` was made at a boundary. */
  ghost predicate ChecksAtBoundaries(next: Stepper, checks: seq<Bytes>, from: nat, s: Bytes, room: int, before: Bytes) {
    forall i :: from <= i < |checks| ==> AtBoundary(next, s, room, before, checks[i])
  }

  lemma MoreChecks(
    next: Stepper, earlier: seq<Bytes>, checks: seq<Bytes>, from: nat, s: Bytes, room: int, before: Bytes,
    chunks: Chunks)
    requires ChecksAtBoundaries(next, earlier, from, s, room, before)
    requires ChecksOf(earlier, checks, before + chunks.Body()) && chunks.Of(next, s, room)
    ensures ChecksAtBoundaries(next, checks, from, s, room, before)
  {
    assert AtBoundary(next, s, room, before, before + chunks.Body());
    forall i | from <= i < |checks|
      ensures AtBoundary(next, s, room, before, checks[i])
    {
      assert i < |earlier| ==> checks[i] == earlier[i];
    }
  }

  /** Where a reader stands that read these chunks: what is unread, what is stored, how much more may be. */
  ghost predicate Reached(
    next: Stepper, s: Bytes, room: int, before: Bytes, chunks: Chunks, t: Bytes, stored: Bytes, left: int)
  {
    && chunks.Of(next, s, room) && chunks.Rest(s) == t
    && stored == before + chunks.Body() && left == room - |chunks.Body()|
  }

  lemma ReachedNext(
    next: Stepper, s: Bytes, room: int, before: Bytes, chunks: Chunks, t: Bytes, stored: Bytes, left: int,
    data: Bytes, rest: Bytes)
    requires Reached(next, s, room, before, chunks, t, stored, left)
    requires Head(next, t, left) == Chunk(data, rest) && |rest| < |t|
    ensures Reached(next, s, room, before, Then(chunks, data, rest), rest, stored + data, left - |data|)
  {
    Associative(before, chunks.Body(), data);
  }

  lemma ReachedEnd(
    next: Stepper, s: Bytes, room: int, before: Bytes, chunks: Chunks, t: Bytes, stored: Bytes, left: int,
    end: End, p: Parsed, now: Bytes, rest: Bytes)
    requires Reached(next, s, room, before, chunks, t, stored, left)
    requires Head(next, t, left) == Chunked.End(p) && Settles(end, p, stored, now, rest)
    ensures Settles(end, Body(next, s, room), before, now, rest)
  {
    EndsAfter(next, s, room, chunks, p);
    Associative(before, chunks.Body(), p.body);
  }

  /** The loop over chunks: the chunks it read, and where it stood before its last turn. */
  method ReadChunks(ghost next: Stepper, reader: PatientReader, writer: LimitedWriter)
    returns (end: End, ghost chunks: Chunks, ghost t: Bytes, ghost stored: Bytes, ghost left: int)
    requires Grammar(next)
    requires reader.Valid() && writer.Funded() && writer.target == reader.raw && writer.disk == reader.disk
    modifies reader, writer, writer.target, writer.disk
    ensures reader.Valid() && writer.Funded()
    ensures Reached(next, old(reader.Pending()), old(writer.Remaining()), old(writer.target.data),
                    chunks, t, stored, left)
    ensures Settled(end) ==>
              && Head(next, t, left).End?
              && Settles(end, Head(next, t, left).parsed, stored, writer.target.data, reader.Pending())
    ensures end == ArchiveWhole ==> writer.target.data == stored && WholeArchive(reader.codec, stored)
    ensures old(reader.checks) <= reader.checks
    ensures ChecksAtBoundaries(next, reader.checks, |old(reader.checks)|,
                               old(reader.Pending()), old(writer.Remaining()), old(writer.target.data))
    ensures Calm(old(reader.events), 0) ==> end != TimedOut
    ensures end.Stopped? ==> !Ample(old(writer.Books()), old(writer.Remaining()))
    ensures writer.total - old(writer.total) == |writer.target.data| - |old(writer.target.data)|
            == old(writer.disk.free) - writer.disk.free
    ensures writer.disk.low >= Min(old(writer.disk.low), MIN_FREE_BYTES)
  {
    ghost var s, room, before := reader.Pending(), writer.Remaining(), writer.target.data;
    chunks, t, stored, left := Start, s, before, room;
    while true
      invariant reader.Valid() && writer.Funded()
      invariant t == reader.Pending() && stored == writer.target.data && left == writer.Remaining()
      invariant Reached(next, s, room, before, chunks, t, stored, left)
      invariant room - left == |stored| - |before| == old(writer.disk.free) - writer.disk.free
      invariant old(reader.checks) <= reader.checks
      invariant ChecksAtBoundaries(next, reader.checks, |old(reader.checks)|, s, room, before)
      invariant Calm(old(reader.events), 0) ==> Calm(reader.events, 0)
      invariant writer.disk.low >= Min(old(writer.disk.low), MIN_FREE_BYTES)
      decreases |t|
    {
      ghost var checks := reader.checks;
      var done;
      ghost var data;
      done, data := ReadChunk(next, reader, writer);
      MoreChecks(next, checks, reader.checks, |old(reader.checks)|, s, room, before, chunks);
      if done.Some? {
        end := done.value;
        return;
      }
      ReachedNext(next, s, room, before, chunks, t, stored, left, data, reader.Pending());
      chunks := Then(chunks, data, reader.Pending());
      t, stored, left := reader.Pending(), writer.target.data, writer.Remaining();
    }
  }

  /**
   * `_read_chunked`. Unless the idle timeout is reached, a write is refused or the
   * archive is whole already, how it ends, what it stored and what it left unread
   * depend on the stream alone. It looks for a whole archive at most twice per
   * upload, and only with whole chunks stored. A silence shorter than the idle
   * timeout never ends it, and with ample room no write is refused.
   * `next` is `NextChunk`.
   */
  method ReadChunked(ghost next: Stepper, reader: PatientReader, writer: LimitedWriter) returns (end: End)
    requires Grammar(next)
    requires reader.Valid() && writer.Funded() && writer.target == reader.raw && writer.disk == reader.disk
    modifies reader, writer, writer.target, writer.disk
    ensures reader.Valid() && writer.Funded()
    ensures Settled(end) ==>
              Settles(end, Body(next, old(reader.Pending()), old(writer.Remaining())),
                      old(writer.target.data), writer.target.data, reader.Pending())
    ensures end == ArchiveWhole ==>
              && AtBoundary(next, old(reader.Pending()), old(writer.Remaining()),
                            old(writer.target.data), writer.target.data)
              && WholeArchive(reader.codec, writer.target.data)
    ensures old(reader.checks) <= reader.checks && |reader.checks| <= MAX_CHECKS
    ensures ChecksAtBoundaries(next, reader.checks, |old(reader.checks)|,
                               old(reader.Pending()), old(writer.Remaining()), old(writer.target.data))
    ensures Calm(old(reader.events), 0) ==> end != TimedOut
    ensures end.Stopped? ==> !Ample(old(writer.Books()), old(writer.Remaining()))
    ensures writer.total - old(writer.total) == |writer.target.data| - |old(writer.target.data)|
            == old(writer.disk.free) - writer.disk.free
    ensures writer.disk.low >= Min(old(writer.disk.low), MIN_FREE_BYTES)
  {
    ghost var s, room, before := reader.Pending(), writer.Remaining(), writer.target.data;
    ghost var chunks, t, stored, left;
    end, chunks, t, stored, left := ReadChunks(next, reader, writer);
    if Settled(end) {
      ReachedEnd(next, s, room, before, chunks, t, stored, left,
                 end, Head(next, t, left).parsed, writer.target.data, reader.Pending());
    }
  }

  // ------------------------------------------------------------------ encodings, in pieces

  /**
   * What `ReadChunked` promises of any stream says this of an encoding that fits,
   * in whatever pieces it arrived: the body is delivered whole and nothing behind
   * the trailer is consumed.
   */
  lemma DeliversEncoded(f: Frame, after: Bytes, room: nat, end: End, before: Bytes, now: Bytes, rest: Bytes)
    requires f.Valid() && Settled(end)
    requires Settles(end, Body(NextChunk, f.Text(after), room), before, now, rest)
    ensures |f.Body()| <= room ==> end == Read && now == before + f.Body() && rest == after
    ensures |f.Body()| > room ==> end == Oversized
  {
    ChunkedGrammar();
    ReadsEncoded(NextChunk, f, after, room);
  }

  /** A body taken as complete before its closing chunk holds whole chunks and nothing else. */
  lemma CompleteHoldsWholeChunks(f: Frame, after: Bytes, room: int, before: Bytes, now: Bytes)
    requires f.Valid() && AtBoundary(NextChunk, f.Text(after), room, before, now)
    ensures exists n :: 0 <= n <= |f.parts| && now == before + Data(f.parts[..n])
  {
    ChunkedGrammar();
    var chunks: Chunks :| chunks.Of(NextChunk, f.Text(after), room) && now == before + chunks.Body();
    var n := WholeChunksOfEncoded(NextChunk, f, after, room, chunks);
  }
}
