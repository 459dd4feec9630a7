/**
 * Byte ceilings and the free-space floor of one upload: `ReceiveBudget` and
 * `LimitedWriter`, over a disk whose only consumer is the upload.
 */
module Limits {
  import opened Basics

  const MIN_FREE_BYTES := 0x4000_0000
  const DISK_CHECK_INTERVAL := 0x100_0000
  const IO_CHUNK_BYTES := 0x1_0000

  function Min(a: int, b: int): (m: int) { if a < b then a else b }

  // ------------------------------------------------------------------ the budget

  /** `ReceiveBudget`: absent when it raises. */
  function ByteLimit(free: nat, percent: nat): (r: Option<nat>) {
    var percentBytes := free * percent / 100;
    var reservable := if free < MIN_FREE_BYTES then 0 else free - MIN_FREE_BYTES;
    var limit := Min(percentBytes, reservable);
    if limit <= 0 then None else Some(limit)
  }

  /** The budget is the largest that leaves the floor and stays within the percentage. */
  lemma ByteLimitExactly(free: nat, percent: nat, n: nat)
    requires n > 0
    ensures MIN_FREE_BYTES + n <= free && 100 * n <= free * percent
            <==> ByteLimit(free, percent).Some? && n <= ByteLimit(free, percent).value
  {
    var scaled := free * percent;
    assert 100 * n <= scaled <==> n <= scaled / 100;
  }

  // ------------------------------------------------------------------ one write, on values

  datatype WriteError = OverLimit | DiskLow | ShortWrite

  /** What a writer that looks at the disk goes by. */
  datatype Ledger = Ledger(limit: nat, total: nat, untilCheck: int, free: nat) {
    /** The bytes still unchecked are there, above the floor. */
    predicate Funded() {
      && total <= limit
      && 0 <= untilCheck <= DISK_CHECK_INTERVAL
      && (untilCheck > 0 ==> free >= MIN_FREE_BYTES + untilCheck)
    }
  }

  datatype Verdict = Refused(error: WriteError) | Took(after: Ledger)

  /** `LimitedWriter.write` of `size` bytes. */
  function Account(l: Ledger, size: nat): (v: Verdict) {
    if size == 0 then Took(l)
    else if size > l.limit - l.total then Refused(OverLimit)
    else
      var look := size >= l.untilCheck;
      if look && l.free < MIN_FREE_BYTES + DISK_CHECK_INTERVAL then Refused(DiskLow)
      else if size > l.free then Refused(ShortWrite)
      else
        var until := if look then DISK_CHECK_INTERVAL else l.untilCheck;
        Took(Ledger(l.limit, l.total + size, until - size, l.free - size))
  }

  /**
   * A funded write of at most the check interval finds the bytes there, and taking
   * it leaves the floor, with the next writes funded.
   */
  lemma AccountKeepsFloor(l: Ledger, size: nat)
    requires l.Funded() && 0 < size <= DISK_CHECK_INTERVAL
    ensures Account(l, size) != Refused(ShortWrite)
    ensures Account(l, size).Took? ==>
              Account(l, size).after.Funded() && Account(l, size).after.free >= MIN_FREE_BYTES
  {
  }

  /** The check interval is exactly how large a single write may be for the floor to be safe. */
  lemma FloorExactly(size: nat)
    requires size > 0
    ensures (forall l: Ledger :: l.Funded() && Account(l, size).Took? ==> Account(l, size).after.free >= MIN_FREE_BYTES)
            <==> size <= DISK_CHECK_INTERVAL
  {
    if size > DISK_CHECK_INTERVAL {
      var free := if size > MIN_FREE_BYTES + DISK_CHECK_INTERVAL then size else MIN_FREE_BYTES + DISK_CHECK_INTERVAL;
      var l := Ledger(size, 0, 0, free);
      assert l.Funded() && Account(l, size).Took? && Account(l, size).after.free < MIN_FREE_BYTES;
    }
  }

  // ------------------------------------------------------------------ the objects

  class Disk {
    var free: nat
    /** The least free space there has been. */
    ghost var low: nat

    constructor (n: nat)
      ensures free == n && low == n
    {
      free, low := n, n;
    }

    method Use(n: nat)
      requires n <= free
      modifies this
      ensures free == old(free) - n && low == Min(old(low), free)
    {
      free := free - n;
      low := Min(low, free);
    }

    method Release(n: nat)
      modifies this
      ensures free == old(free) + n && low == old(low)
    {
      free := free + n;
    }
  }

  class File {
    var data: Bytes

    constructor ()
      ensures data == []
    {
      data := [];
    }
  }

  class LimitedWriter {
    const target: File
    const disk: Disk
    const limit: nat
    var total: nat
    var untilCheck: int

    constructor (target: File, disk: Disk, limit: nat)
      ensures this.target == target && this.disk == disk && this.limit == limit
      ensures total == 0 && untilCheck == 0 && Funded()
    {
      this.target, this.disk, this.limit := target, disk, limit;
      total, untilCheck := 0, 0;
    }

    function Books(): (l: Ledger)
      reads this, disk
    {
      Ledger(limit, total, untilCheck, disk.free)
    }

    ghost predicate Funded()
      reads this, disk
    {
      Books().Funded()
    }

    function Remaining(): (n: int)
      reads this
    {
      limit - total
    }

    /** A refused write changes nothing; one that is taken adds exactly its bytes and keeps the floor. */
    method Write(data: Bytes) returns (e: Option<WriteError>)
      requires Funded() && |data| <= DISK_CHECK_INTERVAL
      modifies this, target, disk
      ensures Funded()
      ensures e == match Account(old(Books()), |data|) { case Refused(error) => Some(error) case Took(_) => None }
      ensures e.None? ==> Books() == Account(old(Books()), |data|).after && target.data == old(target.data) + data
      ensures e.Some? ==> Books() == old(Books()) && target.data == old(target.data) && disk.low == old(disk.low)
      ensures disk.low >= Min(old(disk.low), MIN_FREE_BYTES)
    {
      var size := |data|;
      if size == 0 {
        return None;
      }
      AccountKeepsFloor(Books(), size);
      if size > Remaining() {
        return Some(OverLimit);
      }
      if size >= untilCheck {
        if disk.free < MIN_FREE_BYTES + DISK_CHECK_INTERVAL {
          return Some(DiskLow);
        }
        untilCheck := DISK_CHECK_INTERVAL;
      }
      target.data := target.data + data;
      disk.Use(size);
      total := total + size;
      untilCheck := untilCheck - size;
      e := None;
    }

    /** Every block in turn, up to the first that is refused. */
    method WriteAll(blocks: seq<Bytes>) returns (e: Option<WriteError>)
      requires Funded() && Small(blocks)
      modifies this, target, disk
      ensures Funded()
      ensures e.None? ==> target.data == old(target.data) + Concat(blocks)
      ensures total - old(total) == |target.data| - |old(target.data)| == old(disk.free) - disk.free
      ensures old(total) <= total
      ensures e.Some? ==> old(total) + |Concat(blocks)| > limit || !Roomy(old(disk.free), |Concat(blocks)|)
      ensures disk.low >= Min(old(disk.low), MIN_FREE_BYTES)
    {
      var i := 0;
      assert blocks[..0] == [];
      while i < |blocks|
        invariant i <= |blocks| && Funded()
        invariant target.data == old(target.data) + Concat(blocks[..i])
        invariant total - old(total) == |target.data| - |old(target.data)| == old(disk.free) - disk.free
        invariant old(total) <= total
        invariant disk.low >= Min(old(disk.low), MIN_FREE_BYTES)
      {
        ConcatSnoc(blocks, i);
        PrefixNoLonger(blocks, i + 1);
        e := Write(blocks[i]);
        if e.Some? {
          return;
        }
        i := i + 1;
      }
      assert blocks[..i] == blocks;
      e := None;
    }
  }

  /** Room on the disk for this much and one more check. */
  predicate Roomy(free: nat, size: nat) { free >= MIN_FREE_BYTES + DISK_CHECK_INTERVAL + size }

  /** No single write is larger than the check interval. */
  predicate Small(blocks: seq<Bytes>) {
    forall i :: 0 <= i < |blocks| ==> |blocks[i]| <= DISK_CHECK_INTERVAL
  }

  lemma ConcatSnoc(blocks: seq<Bytes>, i: nat)
    requires i < |blocks|
    ensures Concat(blocks[..i + 1]) == Concat(blocks[..i]) + blocks[i]
  {
    var last := [blocks[i]];
    assert blocks[..i + 1] == blocks[..i] + last;
    ConcatAppend(blocks[..i], last);
    assert last[1..] == [];
    assert Concat(last) == blocks[i];
  }

  lemma PrefixNoLonger(blocks: seq<Bytes>, i: nat)
    requires i <= |blocks|
    ensures |Concat(blocks[..i])| <= |Concat(blocks)|
  {
    assert blocks == blocks[..i] + blocks[i..];
    ConcatAppend(blocks[..i], blocks[i..]);
  }
}
