/**
 * The identity commands' locked regions, over the state they share: the two
 * counters, the window file, the identity settings and the keyring key.
 *
 * A region reads the clock more than once. `pause` is the time between a
 * region's first reading and the one a timeout is computed from, `lag` the time
 * from that reading to the system call that applies the timeout; both are zero
 * when the whole region happens within one second.
 */
module Lifecycle {
  import opened Basics
  import opened CachePayload
  import opened Selection

  /** Where 1Password keeps the identity; saved in the settings by its ids. */
  datatype ItemRef = ItemRef(account: string, vault: string, item: string) {
    predicate Named() { vault != "" && item != "" }
  }

  /** A payload with the item it was fetched from (which no program records). */
  datatype Fetched = Fetched(payload: Payload, origin: ItemRef)

  /** The key linked in the user keyring; the kernel drops it at `deadline`. */
  datatype CacheKey = CacheKey(held: Fetched, deadline: int)

  /**
   * `shown` is what the open window was opened on; like `Fetched.origin` it is
   * history, read by no command.
   */
  datatype Store = Store(
    now: int, seqno: nat, gen: nat,
    window: WindowState, shown: Option<Fetched>,
    source: string, item: ItemRef, key: Option<CacheKey>)
  {
    predicate Live(at: int) { key.Some? && at < key.value.deadline }

    /** The parsed cache, when there is one worth using at this moment. */
    function CurrentCache(): (c: Option<Fetched>) {
      if Live(now) && key.value.held.payload.hardExpiry > now then Some(key.value.held) else None
    }

    predicate UsableForNewWindow() {
      CurrentCache().Some? && CurrentCache().value.payload.periodEnds > now
    }

    /** The cache as selection reads it. */
    function CacheSeen(): (c: CacheState) {
      if Live(now) then Cached(key.value.held.payload.fetchId, key.value.held.payload.hardExpiry)
      else CacheAbsent
    }
  }

  /** What clearing the key came to: `Kept` reports success and clears nothing. */
  datatype Revoked = Cleared | Kept | RevokeFailed

  // ------------------------------------------------------------------ keyring calls

  /** How a timeout call goes: whether its own calls work, and how clearing goes should it come to that. */
  datatype Retiming = Retiming(works: bool, clearing: Revoked)

  /**
   * Change the key's timeout to `timeout` seconds from `at`; clear it when that is
   * below one. Nothing when the call reports an error; clearing may report success
   * and leave the key as it was.
   */
  function Retimed(s: Store, at: int, timeout: int, r: Retiming): (t: Option<Store>) {
    if !r.works then None
    else if !s.Live(at) then Some(s)
    else if timeout >= 1 then Some(s.(key := Some(s.key.value.(deadline := at + timeout))))
    else if r.clearing.RevokeFailed? then None
    else Some(Unkeyed(s, r.clearing))
  }

  function Unkeyed(s: Store, how: Revoked): (r: Store) {
    if how.Cleared? then s.(key := None) else s
  }

  // ------------------------------------------------------------------ the regions

  datatype Publication = Superseded | WindowOpen | NotPublished | Published

  /** `publish_if_current`: publish only if nothing invalidated this fetch. */
  function PublishIn(s: Store, f: Fetched, generation: nat, lag: nat, linked: bool): (r: (Store, Publication)) {
    if s.gen != generation then (s, Superseded)
    else if s.window.Parsed? && s.window.window.OnePassword? then (s, WindowOpen)
    else
      var timeout := f.payload.periodEnds - s.now;
      if timeout < 1 || !linked then (s.(now := s.now + lag), NotPublished)
      else (s.(now := s.now + lag, key := Some(CacheKey(f, s.now + lag + timeout))), Published)
  }

  /**
   * `window --seq`, with the lock held: fix this window's identity, or refuse.
   * `readable`, `timed` and `written` say how the keyring read, the timeout call
   * and the file write go; `diskGood` whether the disk identity does.
   */
  datatype Opening = Opening(readable: bool, pause: nat, lag: nat, timed: Retiming, diskGood: bool, written: bool)

  datatype WindowResult = StaleSeq | Continued(window: Window) | Opened(window: Window) | WindowFailed

  predicate OpensOnCache(s: Store, o: Opening) {
    s.source == "1password" && o.readable && s.UsableForNewWindow()
  }

  function WindowIn(s: Store, seqno: nat, o: Opening): (r: (Store, WindowResult)) {
    if seqno != s.seqno then (s, StaleSeq)
    else if s.window.Parsed? then (s, Continued(s.window.window))
    else if OpensOnCache(s, o) then
      var f := s.CurrentCache().value;
      var w := OnePassword(f.payload.fetchId, f.payload.hardExpiry);
      var at := s.now + o.pause + o.lag;
      (match Retimed(s, at, f.payload.hardExpiry - (s.now + o.pause), o.timed)
      case None => (s.(now := at), WindowFailed)
      case Some(u) =>
        var t := u.(now := at);
        if o.written then (t.(window := Parsed(w), shown := Some(f)), Opened(w)) else (t, WindowFailed))
    else
      var w := if s.source == "disk" && o.diskGood then Disk else SelfSigned;
      if o.written then (s.(window := Parsed(w), shown := None), Opened(w)) else (s, WindowFailed)
  }

  function StopBeginIn(s: Store): (r: Store) { s.(seqno := s.seqno + 1) }

  /** `stop-end`: the window file goes, and the cache falls back to its fetch period. */
  datatype Closing = Closing(removed: bool, readable: bool, pause: nat, lag: nat, timed: Retiming)

  function StopEndIn(s: Store, c: Closing): (r: Store) {
    if !c.removed then s
    else
      var t := s.(window := Absent, shown := None);
      if !c.readable || s.CurrentCache().None? then t
      else
        var at := s.now + c.pause + c.lag;
        var u := Retimed(t, at, s.CurrentCache().value.payload.periodEnds - (s.now + c.pause), c.timed);
        (if u.Some? then u.value else t).(now := at)
  }

  /** `lock`: forget the cache and cancel every fetch still out. */
  function LockIn(s: Store, how: Revoked): (r: Store) {
    if !s.window.Absent? then s else Unkeyed(s.(gen := s.gen + 1), how)
  }

  /** `1password-off`; its settings write comes last and may fail. */
  function OnePasswordOffIn(s: Store, how: Revoked, written: bool): (r: Store) {
    if !s.window.Absent? then s
    else
      var t := Unkeyed(s.(gen := s.gen + 1), how);
      if written then t.(source := "self-signed") else t
  }

  /** `check_current`: no window opened and the generation did not move. */
  predicate Current(s: Store, generation: nat) { s.window.Absent? && s.gen == generation }

  function SaveItemIn(s: Store, item: ItemRef, generation: nat, written: bool): (r: (Store, bool)) {
    if Current(s, generation) && written then (s.(item := item), true) else (s, false)
  }

  /**
   * `adopt`: commit to an item. Three writes in order: the ids, the mode, the
   * generation; `writes` of them succeed.
   */
  function AdoptIn(s: Store, item: ItemRef, generation: nat, how: Revoked, writes: nat): (r: (Store, bool)) {
    if !Current(s, generation) || how.RevokeFailed? then (s, false)
    else
      var t := Unkeyed(s, how);
      var t := if writes >= 1 then t.(item := item) else t;
      var t := if writes >= 2 then t.(source := "1password") else t;
      if writes >= 3 then (t.(gen := t.gen + 1), true) else (t, false)
  }

  /** The times `fetch` puts in a payload made at `t0` with the configured hours. */
  function FetchedTimes(t0: int, hours: int): (r: (int, int))
    ensures r.1 == t0 + 24 * 60 * 60
    ensures hours <= 24 ==> r.0 == t0 + hours * 60 * 60
    ensures r.0 <= r.1
  {
    var t2 := t0 + MAX_LIFETIME;
    (if t0 + hours * 3600 < t2 then t0 + hours * 3600 else t2, t2)
  }
}
