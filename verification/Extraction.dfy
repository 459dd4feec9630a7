/**
 * Storing a received archive: `store_upload` and the budget it keeps. Every
 * failure, at whatever point, leaves the folder as it was; a success adds exactly
 * the archive's regular files; throughout, the disk keeps its floor.
 */
module Extraction {
  import opened Basics
  import opened Limits
  import opened FreeNames
  import opened BodyReader

  const MAX_ARCHIVE_MEMBERS := 512

  type Files = map<string, Bytes>

  /**
   * A member of the archive. `base` is what `safe_name` makes of its path; `opens`
   * and `closes` say whether creating its file, and reading its blocks and closing
   * the file, work.
   */
  datatype Entry = Entry(
    pathname: string, base: string, isFile: bool, declared: int, blocks: seq<Bytes>, opens: bool, closes: bool)

  predicate AppleDouble(path: string) {
    var name := path[LastOf(path, '/') + 1..];
    |name| >= 2 && name[0] == '.' && name[1] == '_'
  }

  predicate Skipped(e: Entry) { !e.isFile || AppleDouble(e.pathname) }

  // ------------------------------------------------------------------ on values

  /** The folder, the names added to it and the bytes written. */
  datatype Shelf = Shelf(files: Files, names: seq<string>, bytes: nat)

  predicate Declared(e: Entry, bytes: nat, limit: nat) {
    e.declared <= limit && bytes + (if e.declared > 0 then e.declared else 0) <= limit
  }

  /** One member more, the `count`th; none when it is refused or fails. */
  function LaidNext(sh: Shelf, e: Entry, count: nat, limit: nat): (r: Option<Shelf>) {
    if count > MAX_ARCHIVE_MEMBERS then None
    else if Skipped(e) then Some(sh)
    else if !Declared(e, sh.bytes, limit) || !e.opens then None
    else
      match FirstFree(sh.files.Keys, e.base, 0)
      case None => None
      case Some(name) =>
        var data := Concat(e.blocks);
        if !e.closes || sh.bytes + |data| > limit then None
        else Some(Shelf(sh.files[name := data], sh.names + [name], sh.bytes + |data|))
  }

  /** What extracting all of these makes of the folder; none when it fails. */
  function Laid(m: Files, entries: seq<Entry>, limit: nat): (r: Option<Shelf>) {
    if entries == [] then Some(Shelf(m, [], 0))
    else
      match Laid(m, entries[..|entries| - 1], limit)
      case None => None
      case Some(sh) => LaidNext(sh, entries[|entries| - 1], |entries|, limit)
  }

  lemma LaidStep(m: Files, entries: seq<Entry>, limit: nat, i: nat, sh: Shelf)
    requires i < |entries| && Laid(m, entries[..i], limit) == Some(sh)
    ensures Laid(m, entries[..i + 1], limit) == LaidNext(sh, entries[i], i + 1, limit)
  {
    assert entries[..i + 1][..i] == entries[..i];
  }

  lemma {:induction false} FailureStays(m: Files, entries: seq<Entry>, limit: nat, i: nat)
    requires i <= |entries| && Laid(m, entries[..i], limit).None?
    ensures Laid(m, entries, limit).None?
    decreases |entries| - i
  {
    if i == |entries| {
      assert entries[..i] == entries;
    } else {
      assert entries[..i + 1][..i] == entries[..i];
      FailureStays(m, entries, limit, i + 1);
    }
  }

  /** The members that are stored, in order. */
  function Kept(entries: seq<Entry>): (r: seq<Entry>) {
    if entries == [] then []
    else
      var last := entries[|entries| - 1];
      Kept(entries[..|entries| - 1]) + (if Skipped(last) then [] else [last])
  }

  function Size(kept: seq<Entry>): (n: nat) {
    if kept == [] then 0 else Size(kept[..|kept| - 1]) + |Concat(kept[|kept| - 1].blocks)|
  }

  /** `files` is `m` with these new files, and nothing else different. */
  ghost predicate Adds(m: Files, files: Files, names: seq<string>, kept: seq<Entry>) {
    && |names| == |kept|
    && (forall i :: 0 <= i < |names| ==>
          names[i] !in m && names[i] in files && files[names[i]] == Concat(kept[i].blocks))
    && (forall i, j :: 0 <= i < j < |names| ==> names[i] != names[j])
    && (forall n :: n in files ==> n in m || n in names)
    && (forall n :: n in m ==> n in files && files[n] == m[n])
  }

  lemma AddsOne(m: Files, files: Files, names: seq<string>, kept: seq<Entry>, name: string, e: Entry)
    requires Adds(m, files, names, kept) && name !in files
    ensures Adds(m, files[name := Concat(e.blocks)], names + [name], kept + [e])
  {
  }

  lemma FirstFreeIsFree(taken: set<string>, name: string, i: nat)
    ensures FirstFree(taken, name, i).Some? ==> FirstFree(taken, name, i).value !in taken
    decreases CANDIDATES - i
  {
  }

  /** The shelf holds `m`, exactly these members besides, and their bytes fit. */
  ghost predicate Holds(m: Files, sh: Shelf, kept: seq<Entry>, limit: nat) {
    Adds(m, sh.files, sh.names, kept) && sh.bytes == Size(kept) <= limit
  }

  lemma HoldsNext(m: Files, sh: Shelf, kept: seq<Entry>, e: Entry, count: nat, limit: nat)
    requires Holds(m, sh, kept, limit) && LaidNext(sh, e, count, limit).Some?
    ensures count <= MAX_ARCHIVE_MEMBERS
    ensures Holds(m, LaidNext(sh, e, count, limit).value, if Skipped(e) then kept else kept + [e], limit)
  {
    if !Skipped(e) {
      var name := FirstFree(sh.files.Keys, e.base, 0).value;
      FirstFreeIsFree(sh.files.Keys, e.base, 0);
      AddsOne(m, sh.files, sh.names, kept, name, e);
      assert (kept + [e])[..|kept|] == kept;
    }
  }

  /**
   * A successful extraction adds exactly the archive's regular files, each under a
   * new name with its own contents, within the byte and member limits.
   */
  lemma {:induction false} LaidExactly(m: Files, entries: seq<Entry>, limit: nat)
    requires Laid(m, entries, limit).Some?
    ensures Holds(m, Laid(m, entries, limit).value, Kept(entries), limit)
    ensures |entries| <= MAX_ARCHIVE_MEMBERS
  {
    if entries != [] {
      var front, e := entries[..|entries| - 1], entries[|entries| - 1];
      LaidExactly(m, front, limit);
      HoldsNext(m, Laid(m, front, limit).value, Kept(front), e, |entries|, limit);
      assert Kept(front) + [] == Kept(front);
    }
  }

  // ------------------------------------------------------------------ in place

  class ExtractionBudget {
    const byteLimit: nat
    var members: nat
    var outputBytes: nat

    constructor (byteLimit: nat)
      ensures this.byteLimit == byteLimit && members == 0 && outputBytes == 0
    {
      this.byteLimit := byteLimit;
      members, outputBytes := 0, 0;
    }

    method CountMember() returns (ok: bool)
      modifies this`members
      ensures members == old(members) + 1 && (ok <==> members <= MAX_ARCHIVE_MEMBERS)
    {
      members := members + 1;
      ok := members <= MAX_ARCHIVE_MEMBERS;
    }
  }

  /** `ExtractedFileWriter.write`: the archive's budget first, then the file's own limit and the disk. */
  method SinkWrite(sink: LimitedWriter, budget: ExtractionBudget, data: Bytes) returns (ok: bool)
    requires sink.Funded() && |data| <= DISK_CHECK_INTERVAL && sink.limit == budget.byteLimit
    requires sink.total <= budget.outputBytes <= budget.byteLimit
    modifies sink, sink.target, sink.disk, budget`outputBytes
    ensures sink.Funded() && sink.total <= budget.outputBytes <= budget.byteLimit
    ensures sink.target.data == if ok then old(sink.target.data) + data else old(sink.target.data)
    ensures budget.outputBytes - old(budget.outputBytes) == old(sink.disk.free) - sink.disk.free
            == |sink.target.data| - |old(sink.target.data)|
    ensures sink.disk.low >= Min(old(sink.disk.low), MIN_FREE_BYTES)
    ensures !ok && Roomy(old(sink.disk.free), |data|) ==> old(budget.outputBytes) + |data| > budget.byteLimit
    ensures ok ==> old(budget.outputBytes) + |data| <= budget.byteLimit
  {
    if budget.outputBytes + |data| > budget.byteLimit {
      return false;
    }
    var e := sink.Write(data);
    if e.Some? {
      return false;
    }
    budget.outputBytes := budget.outputBytes + |data|;
    ok := true;
  }

  /** All of a member's blocks into its file. */
  method WriteBlocks(output: File, disk: Disk, budget: ExtractionBudget, blocks: seq<Bytes>) returns (ok: bool)
    requires Small(blocks) && budget.outputBytes <= budget.byteLimit && output.data == []
    modifies output, disk, budget`outputBytes
    ensures budget.outputBytes <= budget.byteLimit
    ensures ok ==> output.data == Concat(blocks)
    ensures budget.outputBytes - old(budget.outputBytes) == old(disk.free) - disk.free == |output.data|
    ensures disk.low >= Min(old(disk.low), MIN_FREE_BYTES)
    ensures !ok && Roomy(old(disk.free), |Concat(blocks)|) ==>
              old(budget.outputBytes) + |Concat(blocks)| > budget.byteLimit
  {
    var sink := new LimitedWriter(output, disk, budget.byteLimit);
    var i := 0;
    assert blocks[..0] == [];
    while i < |blocks|
      invariant i <= |blocks| && sink.Funded()
      invariant sink.total <= budget.outputBytes <= budget.byteLimit
      invariant output.data == Concat(blocks[..i])
      invariant budget.outputBytes - old(budget.outputBytes) == old(disk.free) - disk.free == |output.data|
      invariant disk.low >= Min(old(disk.low), MIN_FREE_BYTES)
    {
      ConcatSnoc(blocks, i);
      PrefixNoLonger(blocks, i + 1);
      ok := SinkWrite(sink, budget, blocks[i]);
      if !ok {
        return;
      }
      i := i + 1;
    }
    assert blocks[..i] == blocks;
    ok := true;
  }

  /** The bytes these files hold. */
  function Held(files: Files, names: seq<string>): (n: nat) {
    if names == [] then 0
    else
      var last := names[|names| - 1];
      Held(files, names[..|names| - 1]) + (if last in files then |files[last]| else 0)
  }

  predicate Distinct(names: seq<string>) {
    forall i, j :: 0 <= i < j < |names| ==> names[i] != names[j]
  }

  lemma {:induction false} HeldElsewhere(files: Files, names: seq<string>, name: string, data: Bytes)
    requires name !in names
    ensures Held(files[name := data], names) == Held(files, names)
  {
    if names != [] {
      HeldElsewhere(files, names[..|names| - 1], name, data);
    }
  }

  lemma HeldOneMore(files: Files, names: seq<string>, name: string, data: Bytes)
    requires name !in names
    ensures Held(files[name := data], names + [name]) == Held(files, names) + |data|
  {
    HeldElsewhere(files, names, name, data);
    assert (names + [name])[..|names|] == names;
  }

  lemma HeldStep(files: Files, names: seq<string>, i: nat)
    requires 0 < i <= |names|
    ensures Held(files, names[..i]) ==
            Held(files, names[..i - 1]) + (if names[i - 1] in files then |files[names[i - 1]]| else 0)
  {
    assert names[..i][..i - 1] == names[..i - 1];
  }

  /** Removes these files, the last first, and gives their space back. */
  method UnlinkAll(folder: Folder, disk: Disk, created: seq<string>)
    requires Distinct(created)
    modifies folder, disk
    ensures folder.files == old(folder.files) - (set n | n in created)
    ensures disk.free == old(disk.free) + Held(old(folder.files), created) && disk.low == old(disk.low)
  {
    var i := |created|;
    ghost var m := folder.files;
    assert created[..i] == created;
    while i > 0
      invariant 0 <= i <= |created|
      invariant folder.files == m - (set n | n in created[i..])
      invariant disk.free + Held(m, created[..i]) == old(disk.free) + Held(m, created) && disk.low == old(disk.low)
    {
      var name := created[i - 1];
      HeldStep(m, created, i);
      assert created[i - 1..] == [name] + created[i..];
      if name in folder.files {
        disk.Release(|folder.files[name]|);
        folder.files := folder.files - {name};
      }
      i := i - 1;
    }
    assert created[0..] == created;
  }

  /** One member: counted, checked, and stored under a new name if it is a regular file. */
  method ExtractOne(folder: Folder, disk: Disk, budget: ExtractionBudget, e: Entry, ghost sh: Shelf)
    returns (ok: bool, created: Option<string>)
    requires Small(e.blocks)
    requires folder.files == sh.files && budget.outputBytes == sh.bytes <= budget.byteLimit
    modifies folder, disk, budget
    ensures budget.members == old(budget.members) + 1 && budget.outputBytes <= budget.byteLimit
    ensures budget.outputBytes - sh.bytes == old(disk.free) - disk.free
    ensures disk.low >= Min(old(disk.low), MIN_FREE_BYTES)
    ensures created.None? ==> folder.files == sh.files && budget.outputBytes == sh.bytes
    ensures created.Some? ==>
              && created.value !in sh.files && created.value in folder.files
              && folder.files == sh.files[created.value := folder.files[created.value]]
              && budget.outputBytes == sh.bytes + |folder.files[created.value]|
    ensures ok ==>
              LaidNext(sh, e, budget.members, budget.byteLimit) ==
              Some(Shelf(folder.files, if created.Some? then sh.names + [created.value] else sh.names,
                         budget.outputBytes))
    ensures !ok && Roomy(old(disk.free), budget.byteLimit - sh.bytes) ==>
              LaidNext(sh, e, budget.members, budget.byteLimit).None?
  {
    ok := budget.CountMember();
    created := None;
    if !ok || Skipped(e) {
      return;
    }
    if !Declared(e, budget.outputBytes, budget.byteLimit) {
      return false, None;
    }
    created := folder.OpenNew(e.base, e.opens);
    if created.None? {
      return false, None;
    }
    var output := new File();
    ok := WriteBlocks(output, disk, budget, e.blocks);
    folder.files := folder.files[created.value := output.data];
    ok := ok && e.closes;
  }

  lemma DistinctOneMore(names: seq<string>, name: string)
    requires Distinct(names) && name !in names
    ensures Distinct(names + [name])
  {
  }

  lemma UndoesOneMore(m: Files, files: Files, names: seq<string>, name: string, data: Bytes)
    requires files - (set n | n in names) == m && name !in files
    ensures files[name := data] - (set n | n in names + [name]) == m
  {
    var after := files[name := data];
    var gone := set n | n in names + [name];
    assert name in gone;
    forall n
      ensures n in after - gone <==> n in m
    {
      assert n in gone <==> n in names || n == name;
    }
  }

  /** What the clean-up needs: `names` are the new files, distinct, and hold `bytes` in all. */
  ghost predicate Undoable(m: Files, files: Files, names: seq<string>, bytes: nat) {
    && Distinct(names) && Held(files, names) == bytes
    && files - (set n | n in names) == m
    && forall n :: n in names ==> n in files
  }

  lemma UndoableNext(m: Files, files: Files, names: seq<string>, bytes: nat, name: string, data: Bytes)
    requires Undoable(m, files, names, bytes) && name !in files
    ensures Undoable(m, files[name := data], names + [name], bytes + |data|)
  {
    DistinctOneMore(names, name);
    HeldOneMore(files, names, name, data);
    UndoesOneMore(m, files, names, name, data);
  }

  lemma UndoableStart(m: Files)
    ensures Undoable(m, m, [], 0)
  {
    assert m - (set n: string | n in []) == m;
  }

  predicate AllSmall(entries: seq<Entry>) {
    forall i :: 0 <= i < |entries| ==> Small(entries[i].blocks)
  }

  /** All members, up to the first failure; `readable` says whether the archive then ends as it should. */
  method Extract(folder: Folder, disk: Disk, budget: ExtractionBudget, entries: seq<Entry>, readable: bool)
    returns (ok: bool, created: seq<string>, written: seq<string>)
    requires AllSmall(entries) && budget.members == 0 && budget.outputBytes == 0
    modifies folder, disk, budget
    ensures ok ==> readable && written == created
    ensures ok ==> Laid(old(folder.files), entries, budget.byteLimit) ==
                   Some(Shelf(folder.files, written, budget.outputBytes))
    ensures Undoable(old(folder.files), folder.files, created, budget.outputBytes)
    ensures budget.outputBytes == old(disk.free) - disk.free && budget.outputBytes <= budget.byteLimit
    ensures disk.low >= Min(old(disk.low), MIN_FREE_BYTES)
    ensures !ok && readable && Roomy(old(disk.free), budget.byteLimit) ==>
              Laid(old(folder.files), entries, budget.byteLimit).None?
  {
    ghost var m, limit := folder.files, budget.byteLimit;
    created, written := [], [];
    var i := 0;
    UndoableStart(m);
    assert entries[..0] == [];
    while i < |entries|
      invariant i <= |entries| && budget.members == i && budget.outputBytes <= limit
      invariant Laid(m, entries[..i], limit) == Some(Shelf(folder.files, written, budget.outputBytes))
      invariant created == written && Undoable(m, folder.files, created, budget.outputBytes)
      invariant budget.outputBytes == old(disk.free) - disk.free
      invariant disk.low >= Min(old(disk.low), MIN_FREE_BYTES)
    {
      ghost var sh := Shelf(folder.files, written, budget.outputBytes);
      LaidStep(m, entries, limit, i, sh);
      var fine, name := ExtractOne(folder, disk, budget, entries[i], sh);
      if name.Some? {
        UndoableNext(m, sh.files, created, sh.bytes, name.value, folder.files[name.value]);
        created := created + [name.value];
      }
      if !fine {
        if Laid(m, entries[..i + 1], limit).None? {
          FailureStays(m, entries, limit, i + 1);
        }
        return false, created, written;
      }
      if name.Some? {
        written := written + [name.value];
      }
      i := i + 1;
    }
    assert entries[..i] == entries;
    ok := readable;
  }

  // ------------------------------------------------------------------ a whole archive

  /** What the archive library reads from decoded bytes. */
  datatype Archive = Archive(entries: seq<Entry>, readable: bool)

  type Unpacker = f: Bytes -> Archive | forall b :: AllSmall(f(b).entries) witness (b => Archive([], true))

  /** The archive that an upload's body holds; none when it does not decode. */
  function Unpacked(codec: Codec, unpack: Unpacker, body: Bytes): (a: Option<Archive>) {
    if !codec.decode(body).fine then None else Some(unpack(Concat(codec.decode(body).blocks)))
  }

  /** What storing an upload does to the folder, apart from what the disk refuses. */
  function Stored(m: Files, archive: Option<Archive>, limit: nat): (r: Option<Shelf>) {
    if archive.None? || !archive.value.readable then None else Laid(m, archive.value.entries, limit)
  }

  /** From the decoded archive on: extract, or take back every file that was created. */
  method ExtractOrUndo(folder: Folder, disk: Disk, archive: Archive, limit: nat)
    returns (r: Option<seq<string>>, ghost bytes: nat)
    requires AllSmall(archive.entries)
    modifies folder, disk
    ensures r.None? ==> folder.files == old(folder.files) && bytes == 0
    ensures r.Some? ==> Stored(old(folder.files), Some(archive), limit) == Some(Shelf(folder.files, r.value, bytes))
    ensures disk.free == old(disk.free) - bytes && disk.low >= Min(old(disk.low), MIN_FREE_BYTES)
    ensures r.None? && Roomy(old(disk.free), limit) ==> Stored(old(folder.files), Some(archive), limit).None?
  {
    var budget := new ExtractionBudget(limit);
    var ok, created, written := Extract(folder, disk, budget, archive.entries, archive.readable);
    if !ok {
      UnlinkAll(folder, disk, created);
      return None, 0;
    }
    return Some(written), budget.outputBytes;
  }

  /** The decoded archive in a file of its own; on failure its space is given back. */
  method DecodeUpload(raw: File, disk: Disk, codec: Codec, limit: nat) returns (cpio: Option<File>)
    modifies disk
    ensures cpio.Some? ==>
              && fresh(cpio.value) && codec.decode(raw.data).fine
              && cpio.value.data == Concat(codec.decode(raw.data).blocks)
    ensures disk.free == old(disk.free) - (if cpio.Some? then |cpio.value.data| else 0)
    ensures disk.low >= Min(old(disk.low), MIN_FREE_BYTES)
    ensures cpio.None? ==>
              || !codec.decode(raw.data).fine
              || |Concat(codec.decode(raw.data).blocks)| > limit
              || !Roomy(old(disk.free), |Concat(codec.decode(raw.data).blocks)|)
  {
    var file := new File();
    var writer := new LimitedWriter(file, disk, limit);
    var decoded := codec.decode(raw.data);
    var e := writer.WriteAll(decoded.blocks);
    assert [] + Concat(decoded.blocks) == Concat(decoded.blocks);
    if e.Some? || !decoded.fine {
      disk.Release(|file.data|);
      return None;
    }
    cpio := Some(file);
  }

  /**
   * `store_upload`. All or nothing: on failure the folder is as before; on success
   * it is what `Stored` says, which `LaidExactly` explains. What the decoded
   * archive and undone files took from the disk is given back, the wire copy's
   * space as well once it is decoded, and the floor holds throughout. With room on
   * the disk it fails only if the archive itself is at fault.
   */
  method StoreUpload(raw: File, folder: Folder, disk: Disk, codec: Codec, unpack: Unpacker, limit: nat)
    returns (r: Option<seq<string>>, ghost bytes: nat)
    modifies raw, folder, disk
    ensures r.None? ==> folder.files == old(folder.files) && bytes == 0
    ensures r.Some? ==>
              Stored(old(folder.files), Unpacked(codec, unpack, old(raw.data)), limit) ==
              Some(Shelf(folder.files, r.value, bytes))
    ensures disk.free + |raw.data| + bytes == old(disk.free) + |old(raw.data)|
    ensures disk.low >= Min(old(disk.low), MIN_FREE_BYTES)
    ensures r.None? && Unpacked(codec, unpack, old(raw.data)).Some? ==>
              var size := |Concat(codec.decode(old(raw.data)).blocks)|;
              || size > limit || !Roomy(old(disk.free), size + limit)
              || Stored(old(folder.files), Unpacked(codec, unpack, old(raw.data)), limit).None?
  {
    var cpio := DecodeUpload(raw, disk, codec, limit);
    if cpio.None? {
      return None, 0;
    }
    disk.Release(|raw.data|);
    raw.data := [];
    r, bytes := ExtractOrUndo(folder, disk, unpack(cpio.value.data), limit);
    disk.Release(|cpio.value.data|);
  }
}
