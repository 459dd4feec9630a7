/** One upload from its first byte to its answer: `handle_upload`. */
module Upload {
  import opened Basics
  import opened Limits
  import opened Chunked
  import opened BodyReader
  import opened FreeNames
  import opened Extraction

  /** `body` is a body that the stream `s` holds, sent with a length or in chunks. */
  ghost predicate BodyOf(next: Stepper, body: Bytes, s: Bytes, length: Option<nat>, limit: nat, codec: Codec) {
    match length
    case Some(n) => n <= limit && n <= |s| && body == s[..n]
    case None =>
      || (Body(next, s, limit).Finished? && body == Body(next, s, limit).body)
      || (AtBoundary(next, s, limit, [], body) && WholeArchive(codec, body))
  }

  /** The stream holds a body that fits. */
  ghost predicate HasBody(next: Stepper, s: Bytes, length: Option<nat>, limit: nat) {
    match length
    case Some(n) => n <= limit && n <= |s|
    case None => Body(next, s, limit).Finished?
  }

  lemma ChunkedIsBody(
    next: Stepper, end: End, s: Bytes, limit: nat, codec: Codec, before: Bytes, now: Bytes, rest: Bytes)
    requires before == []
    requires end == ArchiveWhole ==> AtBoundary(next, s, limit, before, now) && WholeArchive(codec, now)
    requires Settled(end) ==> Settles(end, Body(next, s, limit), before, now, rest)
    ensures end == Read || end == ArchiveWhole ==> BodyOf(next, now, s, None, limit, codec)
    ensures end == Malformed || end == Oversized ==> !HasBody(next, s, None, limit)
  {
    assert end == Read ==> before + Body(next, s, limit).body == Body(next, s, limit).body;
  }

  /** A chunked body into an empty file. */
  method ReadInChunks(ghost next: Stepper, reader: PatientReader, writer: LimitedWriter) returns (ok: bool)
    requires Grammar(next)
    requires reader.Valid() && writer.Funded() && writer.target == reader.raw && writer.disk == reader.disk
    requires writer.total == 0 && writer.target.data == []
    modifies reader, writer, writer.target, writer.disk
    ensures writer.Funded()
    ensures ok ==> BodyOf(next, writer.target.data, old(reader.Pending()), None, writer.limit, reader.codec)
    ensures !ok ==>
              || !HasBody(next, old(reader.Pending()), None, writer.limit)
              || !Calm(old(reader.events), 0) || !Ample(old(writer.Books()), writer.limit)
    ensures writer.total == |writer.target.data| == old(writer.disk.free) - writer.disk.free
    ensures writer.disk.low >= Min(old(writer.disk.low), MIN_FREE_BYTES)
  {
    ghost var s := reader.Pending();
    var end := ReadChunked(next, reader, writer);
    ChunkedIsBody(next, end, s, writer.limit, reader.codec, [], writer.target.data, reader.Pending());
    ok := end == Read || end == ArchiveWhole;
  }

  /** The body into an empty file, as `body_plan` and `read_request_body` have it. */
  method ReadBody(ghost next: Stepper, reader: PatientReader, writer: LimitedWriter, length: Option<nat>)
    returns (ok: bool)
    requires Grammar(next)
    requires reader.Valid() && writer.Funded() && writer.target == reader.raw && writer.disk == reader.disk
    requires writer.total == 0 && writer.target.data == []
    modifies reader, writer, writer.target, writer.disk
    ensures ok ==> BodyOf(next, writer.target.data, old(reader.Pending()), length, writer.limit, reader.codec)
    ensures !ok ==>
              || !HasBody(next, old(reader.Pending()), length, writer.limit)
              || !Calm(old(reader.events), 0) || !Ample(old(writer.Books()), writer.limit)
    ensures |writer.target.data| == old(writer.disk.free) - writer.disk.free
    ensures |writer.target.data| <= writer.limit
    ensures writer.disk.low >= Min(old(writer.disk.low), MIN_FREE_BYTES)
  {
    if length.None? {
      ok := ReadInChunks(next, reader, writer);
    } else if length.value > writer.limit {
      ok := false;
    } else {
      var end := CopyExact(reader, writer, length.value);
      ok := end == Read;
    }
  }

  /** Storing this body fails, whatever room there is on the disk. */
  predicate Faulty(m: Files, codec: Codec, unpack: Unpacker, body: Bytes, limit: nat) {
    || |Concat(codec.decode(body).blocks)| > limit
    || Stored(m, Unpacked(codec, unpack, body), limit).None?
  }

  /** Why an upload with this budget was not stored. */
  ghost predicate NotStored(
    next: Stepper, m: Files, s: Bytes, events: seq<Event>, length: Option<nat>, codec: Codec, unpack: Unpacker,
    free: nat, limit: nat, body: Bytes)
  {
    || !HasBody(next, s, length, limit) || !Calm(events, 0) || !Roomy(free, 3 * limit)
    || (BodyOf(next, body, s, length, limit, codec) && Faulty(m, codec, unpack, body, limit))
  }

  /** `StoreUpload`, failing only for want of room or on a faulty archive. */
  method StoreBody(raw: File, folder: Folder, disk: Disk, codec: Codec, unpack: Unpacker, limit: nat)
    returns (stored: Option<seq<string>>, ghost bytes: nat)
    modifies raw, folder, disk
    ensures stored.None? ==> folder.files == old(folder.files) && bytes == 0
    ensures stored.Some? ==>
              Stored(old(folder.files), Unpacked(codec, unpack, old(raw.data)), limit) ==
              Some(Shelf(folder.files, stored.value, bytes))
    ensures disk.free == old(disk.free) + |old(raw.data)| - bytes
    ensures disk.low >= Min(old(disk.low), MIN_FREE_BYTES)
    ensures stored.None? && Roomy(old(disk.free), 2 * limit) ==>
              Faulty(old(folder.files), codec, unpack, old(raw.data), limit)
  {
    stored, bytes := StoreUpload(raw, folder, disk, codec, unpack, limit);
    disk.Release(|raw.data|);
  }

  /** The upload once its budget is known. */
  method Receive(
    ghost next: Stepper, disk: Disk, folder: Folder, limit: nat, length: Option<nat>, capacity: nat,
    events: seq<Event>, codec: Codec, unpack: Unpacker)
    returns (stored: Option<seq<string>>, ghost body: Bytes, ghost bytes: nat)
    requires Grammar(next) && capacity > 0 && Proper(events)
    modifies disk, folder
    ensures disk.low >= Min(old(disk.low), MIN_FREE_BYTES)
    ensures stored.None? ==> folder.files == old(folder.files) && disk.free == old(disk.free)
    ensures stored.Some? ==>
              && BodyOf(next, body, Arriving(events), length, limit, codec) && |body| <= limit
              && Stored(old(folder.files), Unpacked(codec, unpack, body), limit) ==
                 Some(Shelf(folder.files, stored.value, bytes))
              && disk.free == old(disk.free) - bytes
    ensures stored.None? ==>
              NotStored(next, old(folder.files), Arriving(events), events, length, codec, unpack,
                        old(disk.free), limit, body)
  {
    bytes := 0;
    var raw := new File();
    var reader := new PatientReader(capacity, raw, disk, limit, codec, events);
    var writer := new LimitedWriter(raw, disk, limit);
    var ok := ReadBody(next, reader, writer, length);
    body := raw.data;
    if ok {
      stored, bytes := StoreBody(raw, folder, disk, codec, unpack, limit);
    } else {
      stored := None;
      disk.Release(|raw.data|);
    }
  }

  /**
   * Whatever arrives, in whatever pieces, and whatever fails: the upload never
   * takes the free space below the floor; unless it is stored, the folder and the
   * free space are in the end what they were; if it is, exactly the files of the
   * archive in its body were added and only their bytes are gone. Given a budget,
   * room on the disk, a sender that never falls silent for the idle timeout and a
   * body that fits, only a faulty archive is not stored.
   *
   * The methods this is built from take the chunk grammar as a ghost `next`, so
   * that their proofs need not look into it; here it is `NextChunk`.
   */
  method HandleUpload(
    disk: Disk, folder: Folder, percent: nat, length: Option<nat>, capacity: nat, events: seq<Event>,
    codec: Codec, unpack: Unpacker)
    returns (stored: Option<seq<string>>, ghost body: Bytes, ghost bytes: nat)
    requires capacity > 0 && Proper(events) && disk.low == disk.free
    modifies disk, folder
    ensures ByteLimit(old(disk.free), percent).Some? ==> disk.low >= MIN_FREE_BYTES
    ensures ByteLimit(old(disk.free), percent).None? ==> stored.None? && disk.low == old(disk.free)
    ensures stored.None? ==> folder.files == old(folder.files) && disk.free == old(disk.free)
    ensures stored.Some? ==>
              var limit := ByteLimit(old(disk.free), percent).value;
              && BodyOf(NextChunk, body, Arriving(events), length, limit, codec) && |body| <= limit
              && Stored(old(folder.files), Unpacked(codec, unpack, body), limit) ==
                 Some(Shelf(folder.files, stored.value, bytes))
              && disk.free == old(disk.free) - bytes
    ensures stored.None? && ByteLimit(old(disk.free), percent).Some? ==>
              NotStored(NextChunk, old(folder.files), Arriving(events), events, length, codec, unpack,
                        old(disk.free), ByteLimit(old(disk.free), percent).value, body)
  {
    var budget := ByteLimit(disk.free, percent);
    if budget.None? {
      return None, [], 0;
    }
    ChunkedGrammar();
    stored, body, bytes := Receive(NextChunk, disk, folder, budget.value, length, capacity, events, codec, unpack);
  }
}
