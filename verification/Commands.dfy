/**
 * The locked regions as the program runs them: statement by statement over the
 * shared files and the keyring key, each proved to do what `Lifecycle` says of
 * it, and to keep what the command's own comments promise. The parameters beside
 * the commands' own stand for what the kernel, the clock and the disk answer.
 */
module Commands {
  import opened Basics
  import opened Selection
  import opened Lifecycle
  import opened WindowSafety
  import opened WindowChoice

  class Env {
    var now: int
    var seqno: nat
    var gen: nat
    var window: WindowState
    var shown: Option<Fetched>
    var source: string
    var item: ItemRef
    var key: Option<CacheKey>

    function Value(): (s: Store)
      reads this
    {
      Store(now, seqno, gen, window, shown, source, item, key)
    }

    constructor (s: Store)
      ensures Value() == s
    {
      now, seqno, gen, window := s.now, s.seqno, s.gen, s.window;
      shown, source, item, key := s.shown, s.source, s.item, s.key;
    }

    /** The keyring's `set_timeout`, `timeout` having been computed earlier. */
    method SetTimeout(timeout: int, r: Retiming) returns (ok: bool)
      modifies this`key
      ensures ok <==> Retimed(old(Value()), now, timeout, r).Some?
      ensures Value() == if ok then Retimed(old(Value()), now, timeout, r).value else old(Value())
    {
      if !r.works {
        return false;
      }
      ok := true;
      if key.Some? && now < key.value.deadline {
        if timeout < 1 {
          ok := Revoke(r.clearing);
        } else {
          key := Some(key.value.(deadline := now + timeout));
        }
      }
    }

    method Revoke(how: Revoked) returns (ok: bool)
      modifies this`key
      ensures Value() == Unkeyed(old(Value()), how)
      ensures ok <==> !how.RevokeFailed?
    {
      if how.Cleared? {
        key := None;
      }
      ok := !how.RevokeFailed?;
    }

    method ReadCache(readable: bool) returns (c: Option<Fetched>)
      ensures c == if readable then Value().CurrentCache() else None
    {
      c := None;
      if readable && key.Some? && now < key.value.deadline {
        var held := key.value.held;
        if held.payload.hardExpiry > now {
          c := Some(held);
        }
      }
    }

    /** Never replaces a live window's cache, and leaves everything alone once the fetch was superseded. */
    method PublishIfCurrent(f: Fetched, generation: nat, lag: nat, linked: bool) returns (outcome: Publication)
      modifies this
      ensures (Value(), outcome) == PublishIn(old(Value()), f, generation, lag, linked)
      ensures old(gen) != generation || (old(window).Parsed? && old(window).window.OnePassword?) ==>
                Value() == old(Value()) && !outcome.Published?
      ensures outcome.Published? <==>
                && old(gen) == generation && !(old(window).Parsed? && old(window).window.OnePassword?)
                && f.payload.periodEnds > old(now) && linked
      ensures outcome.Published? ==> key == Some(CacheKey(f, f.payload.periodEnds + lag))
      ensures Covered(old(Value())) ==> Covered(Value())
    {
      if gen != generation {
        return Superseded;
      }
      if window.Parsed? && window.window.OnePassword? {
        return WindowOpen;
      }
      var timeout := f.payload.periodEnds - now;
      now := now + lag;
      if timeout < 1 || !linked {
        return NotPublished;
      }
      key := Some(CacheKey(f, now + timeout));
      outcome := Published;
    }

    /** Starts nothing once an `off` ran, keeps an open window's choice, and covers a new one if it is in time. */
    method CmdWindow(asked: nat, o: Opening) returns (result: WindowResult)
      modifies this
      ensures (Value(), result) == WindowIn(old(Value()), asked, o)
      ensures result.StaleSeq? || result.Continued? ==> Value() == old(Value())
      ensures result.Opened? ==> Fixes(old(Value()), o, result.window) && window == Parsed(result.window)
      ensures gen == old(gen) && seqno == old(seqno) && source == old(source) && item == old(item)
      ensures Covered(old(Value())) ==>
                (Covered(Value()) <==> (result.Opened? ==> OpensInTime(old(Value()), o)))
    {
      if asked != seqno {
        return StaleSeq;
      }
      if window.Parsed? {
        return Continued(window.window);
      }
      var chosen: Window := SelfSigned;
      var on: Option<Fetched> := None;
      if source == "1password" {
        var cache := ReadCache(o.readable);
        if cache.Some? && cache.value.payload.periodEnds > now {
          var p := cache.value.payload;
          chosen := OnePassword(p.fetchId, p.hardExpiry);
          on := cache;
          now := now + o.pause;
          var timeout := p.hardExpiry - now;
          now := now + o.lag;
          var ok := SetTimeout(timeout, o.timed);
          if !ok {
            return WindowFailed;
          }
        }
      } else if source == "disk" {
        if o.diskGood {
          chosen := Disk;
        }
      }
      if !o.written {
        return WindowFailed;
      }
      window, shown := Parsed(chosen), on;
      result := Opened(chosen);
    }

    /** The window goes, and the cache falls back to its fetch period unless clearing it was in vain. */
    method CmdStopEnd(c: Closing)
      modifies this
      ensures Value() == StopEndIn(old(Value()), c)
      ensures c.removed ==> window == Absent
      ensures c.removed && c.readable && c.timed.works && !c.timed.clearing.RevokeFailed? ==>
                ((|| !Value().Live(now) || key.value.deadline <= key.value.held.payload.periodEnds + c.lag
                  || key.value.held.payload.hardExpiry <= now)
                 <==> !ClearedInVain(old(Value()), c))
      ensures Covered(old(Value())) ==> Covered(Value())
    {
      if c.removed && c.readable && c.timed.works && !c.timed.clearing.RevokeFailed? {
        StopEndShortens(Value(), c);
      }
      if !c.removed {
        return;
      }
      window, shown := Absent, None;
      var cache := ReadCache(c.readable);
      if cache.Some? {
        now := now + c.pause;
        var timeout := cache.value.payload.periodEnds - now;
        now := now + c.lag;
        var _ := SetTimeout(timeout, c.timed);
      }
    }

    /**
     * Refused under a window; otherwise no fetch begun before can publish, and a
     * success leaves no key, unless clearing it was in vain.
     */
    method CmdLock(how: Revoked) returns (code: nat)
      modifies this
      ensures Value() == LockIn(old(Value()), how)
      ensures !old(window).Absent? ==> Value() == old(Value())
      ensures old(window).Absent? ==> gen > old(gen)
      ensures code == 0 && key.Some? ==> how.Kept?
      ensures code == 0 <==> old(window).Absent? && !how.RevokeFailed?
    {
      if !window.Absent? {
        return 1;
      }
      gen := gen + 1;
      var ok := Revoke(how);
      code := if ok then 0 else 1;
    }

    /** Refused under a window; otherwise no fetch begun before can publish, and the item is kept. */
    method CmdOnePasswordOff(how: Revoked, written: bool)
      modifies this
      ensures Value() == OnePasswordOffIn(old(Value()), how, written)
      ensures !old(window).Absent? ==> Value() == old(Value())
      ensures old(window).Absent? ==> gen > old(gen)
      ensures item == old(item)
      ensures source == if old(window).Absent? && written then "self-signed" else old(source)
    {
      if !window.Absent? {
        return;
      }
      gen := gen + 1;
      var _ := Revoke(how);
      if written {
        source := "self-signed";
      }
    }

    method CheckCurrent(generation: nat) returns (ok: bool)
      ensures ok <==> Current(Value(), generation)
    {
      if !window.Absent? {
        return false;
      }
      ok := gen == generation;
    }

    /**
     * Refused if a window opened, the generation moved or the old cache could not be
     * cleared; the mode is written only after the ids, and the generation last, by
     * exactly the adoptions that report success.
     */
    method AdoptItem(ids: ItemRef, generation: nat, how: Revoked, writes: nat) returns (done: bool)
      modifies this
      ensures (Value(), done) == AdoptIn(old(Value()), ids, generation, how, writes)
      ensures !old(window).Absent? || old(gen) != generation || how.RevokeFailed? ==> Value() == old(Value()) && !done
      ensures item != old(item) && key.Some? ==> how.Kept? && key == old(key)
      ensures source != old(source) ==> item == ids && source == "1password"
      ensures done <==> gen != old(gen)
      ensures done ==> item == ids && source == "1password"
    {
      done := CheckCurrent(generation);
      if !done {
        return;
      }
      done := Revoke(how);
      if !done {
        return;
      }
      if writes < 1 {
        return false;
      }
      item := ids;
      if writes < 2 {
        return false;
      }
      source := "1password";
      if writes < 3 {
        return false;
      }
      gen := gen + 1;
    }
  }
}
