/**
 * The identity cache in the kernel keyring: raw operations, each of which may
 * fail, and the sequences built from them. A key must never be linked where
 * others can find it without a timeout.
 */
module Keyring {
  import opened Basics
  import opened Lifecycle

  const KEY_PERM := 0x3f01_0000
  const U32_MAX := 0xffff_ffff

  type Serial = nat

  /** `perm` is absent while the key has the kernel's default permissions. */
  datatype Key = Key(payload: string, timeout: Option<nat>, perm: Option<nat>, revoked: bool)

  /** Every key, and the one carrying the cache's name in the user's and in this process's keyring. */
  datatype Rings = Rings(keys: map<Serial, Key>, user: Option<Serial>, process: Option<Serial>) {
    predicate WellFormed() {
      (user.Some? ==> user.value in keys) && (process.Some? ==> process.value in keys)
    }

    /** A search skips revoked keys. */
    function Found(): (id: Option<Serial>)
      requires WellFormed()
    {
      if user.Some? && !keys[user.value].revoked then user else None
    }

    /** The key others can find has a timeout. */
    predicate Timed() { user.Some? ==> user.value in keys && keys[user.value].timeout.Some? }

    /** Adding a key updates one of the same name that is already in the ring, if it is not revoked. */
    predicate UpdatesInPlace()
      requires WellFormed()
    {
      process.Some? && !keys[process.value].revoked
    }
  }

  // ------------------------------------------------------------------ raw operations

  function Added(r: Rings, payload: string, fresh_: Serial): (s: (Rings, Serial))
    requires r.WellFormed()
  {
    if r.UpdatesInPlace() then
      var id := r.process.value;
      (r.(keys := r.keys[id := r.keys[id].(payload := payload, timeout := None)]), id)
    else (r.(keys := r.keys[fresh_ := Key(payload, None, None, false)], process := Some(fresh_)), fresh_)
  }

  /** A timeout of zero seconds takes the timeout away. */
  function TimeoutSet(r: Rings, id: Serial, secs: nat): (s: Rings)
    requires id in r.keys
  {
    r.(keys := r.keys[id := r.keys[id].(timeout := if secs == 0 then None else Some(secs))])
  }

  function PermSet(r: Rings, id: Serial, perm: nat): (s: Rings)
    requires id in r.keys
  {
    r.(keys := r.keys[id := r.keys[id].(perm := Some(perm))])
  }

  /** Linking replaces a key of the same name. */
  function Linked(r: Rings, id: Serial): (s: Rings) { r.(user := Some(id)) }

  function UnlinkedHere(r: Rings, id: Serial): (s: Rings) {
    if r.process == Some(id) then r.(process := None) else r
  }

  function UnlinkedUser(r: Rings, id: Serial): (s: Rings) {
    if r.user == Some(id) then r.(user := None) else r
  }

  function Revoke(r: Rings, id: Serial): (s: Rings)
    requires id in r.keys
  {
    r.(keys := r.keys[id := r.keys[id].(revoked := true)])
  }

  function ClampSecs(timeout: int): (n: nat)
    ensures n <= U32_MAX && (0 <= timeout <= U32_MAX ==> n == timeout)
    ensures timeout < 0 ==> n == 0
    ensures timeout > U32_MAX ==> n == U32_MAX
  {
    if timeout < 0 then 0 else if timeout <= U32_MAX then timeout else U32_MAX
  }

  // ------------------------------------------------------------------ publishing

  /** Which raw operations of `publish` succeed. */
  datatype Answers = Answers(
    search: bool, add: bool, timeout: bool, perm: bool, link: bool,
    undo: bool, unlink: bool, revokeOld: bool)

  /** From entry `n` on, no key others can find lacks a timeout. */
  ghost predicate SafeFrom(log: seq<Rings>, n: nat) {
    forall i :: n <= i < |log| ==> log[i].WellFormed() && log[i].Timed()
  }

  /** From entry `n` on, the user keyring links the same key. */
  ghost predicate LinkKept(log: seq<Rings>, n: nat, user: Option<Serial>) {
    forall i :: n <= i < |log| ==> log[i].user == user
  }

  class KernelKeyring {
    var rings: Rings
    /** The state after each raw operation, oldest first. */
    ghost var log: seq<Rings>

    constructor (r: Rings)
      ensures rings == r && log == []
    {
      rings, log := r, [];
    }

    method Became(r: Rings)
      modifies this
      ensures rings == r && log == old(log) + [r]
    {
      rings := r;
      log := log + [r];
    }

    /**
     * `publish`. Whatever fails, at no step is a key without a timeout linked in
     * the user keyring; a failure leaves the linked key as it was and never links
     * the staged one; a success links the new payload with its timeout and
     * permissions and touches no other key but the old one, which it revokes.
     */
    method Publish(payload: string, timeout: int, fresh_: Serial, a: Answers) returns (r: Option<Serial>)
      requires rings.WellFormed() && rings.Timed() && fresh_ !in rings.keys
      requires !(rings.UpdatesInPlace() && rings.process == rings.user)
      modifies this
      ensures rings.WellFormed() && old(log) <= log
      ensures SafeFrom(log, |old(log)|)
      ensures r.Some? <==> timeout >= 1 && a.add && a.timeout && a.perm && a.link
      ensures r.None? ==>
                && LinkKept(log, |old(log)|, old(rings).user)
                && rings.user == old(rings).user
                && (rings.user.Some? ==> rings.keys[rings.user.value] == old(rings).keys[rings.user.value])
      ensures r.Some? ==>
                && rings.user == r
                && rings.keys[r.value] == Key(payload, Some(ClampSecs(timeout)), Some(KEY_PERM), false)
                && (a.unlink ==> rings.process == None)
                && forall k :: k in old(rings).keys && k != r.value ==>
                     && k in rings.keys
                     && rings.keys[k] == if a.search && old(rings).Found() == Some(k) && a.revokeOld
                                         then old(rings).keys[k].(revoked := true) else old(rings).keys[k]
    {
      if timeout < 1 {
        return None;
      }
      var before := if a.search then rings.Found() else None;
      if !a.add {
        return None;
      }
      var (staged, id) := Added(rings, payload, fresh_);
      Became(staged);
      var ok := Stage(id, timeout, a);
      if !ok {
        Undo(id, a.undo);
        return None;
      }
      Finish(id, if before == Some(id) then None else before, a);
      r := Some(id);
    }

    /** After a failure: revoke the staged key, if that works. */
    method Undo(id: Serial, works: bool)
      requires rings.WellFormed() && rings.Timed() && id in rings.keys && rings.user != Some(id)
      modifies this
      ensures rings.WellFormed() && old(log) <= log
      ensures SafeFrom(log, |old(log)|) && LinkKept(log, |old(log)|, old(rings).user)
      ensures rings.user == old(rings).user
      ensures forall k :: k in old(rings).keys && k != id ==> k in rings.keys && rings.keys[k] == old(rings).keys[k]
    {
      if works {
        Became(Revoke(rings, id));
      }
    }

    /** After the link: drop this process's link and revoke the key it replaced, as far as that works. */
    method Finish(id: Serial, before: Option<Serial>, a: Answers)
      requires rings.WellFormed() && rings.Timed() && rings.user == Some(id)
      requires before.Some? ==> before.value in rings.keys && before.value != id
      modifies this
      ensures rings.WellFormed() && old(log) <= log
      ensures SafeFrom(log, |old(log)|)
      ensures rings.user == Some(id) && rings.keys.Keys == old(rings).keys.Keys
      ensures old(rings).process == Some(id) && a.unlink ==> rings.process == None
      ensures forall k :: k in rings.keys ==>
                rings.keys[k] == if before == Some(k) && a.revokeOld
                                 then old(rings).keys[k].(revoked := true) else old(rings).keys[k]
    {
      if a.unlink {
        Became(UnlinkedHere(rings, id));
      }
      if before.Some? && a.revokeOld {
        Became(Revoke(rings, before.value));
      }
    }

    /** Timeout, permissions, and only then the link. */
    method Stage(id: Serial, timeout: int, a: Answers) returns (ok: bool)
      requires rings.WellFormed() && rings.Timed() && timeout >= 1
      requires id in rings.keys && rings.process == Some(id) && rings.user != Some(id)
      modifies this
      ensures ok <==> a.timeout && a.perm && a.link
      ensures rings.WellFormed() && old(log) <= log
      ensures SafeFrom(log, |old(log)|)
      ensures !ok ==> rings.user == old(rings).user && id in rings.keys
      ensures !ok ==> LinkKept(log, |old(log)|, old(rings).user)
      ensures ok ==> rings.user == Some(id) && id in rings.keys
                     && rings.keys[id] ==
                        old(rings).keys[id].(timeout := Some(ClampSecs(timeout)), perm := Some(KEY_PERM))
      ensures rings.process == Some(id) && rings.keys.Keys == old(rings).keys.Keys
      ensures forall k :: k in rings.keys && k != id ==> rings.keys[k] == old(rings).keys[k]
    {
      if !a.timeout {
        return false;
      }
      Became(TimeoutSet(rings, id, ClampSecs(timeout)));
      if !a.perm {
        return false;
      }
      Became(PermSet(rings, id, KEY_PERM));
      if !a.link {
        return false;
      }
      Became(Linked(rings, id));
      ok := true;
    }
  }

  /**
   * Why each command publishes from a process of its own: adding the key is safe
   * exactly when this process's keyring does not already hold the linked one,
   * which it would update in place and leave without a timeout.
   */
  lemma AddSafeExactly(r: Rings, payload: string, fresh_: Serial)
    requires r.WellFormed() && r.Timed() && fresh_ !in r.keys
    ensures Added(r, payload, fresh_).0.Timed() <==> !(r.UpdatesInPlace() && r.process == r.user)
  {
  }

  // ------------------------------------------------------------------ clearing

  /** `revoke`: reports success once the key was found, whatever became of the two calls. */
  function RevokeCache(r: Rings, search: bool, revoke: bool, unlink: bool): (s: (Rings, Option<bool>))
    requires r.WellFormed()
  {
    if !search then (r, None)
    else if r.Found().None? then (r, Some(false))
    else
      var id := r.Found().value;
      var t := if revoke then Revoke(r, id) else r;
      (if unlink then UnlinkedUser(t, id) else t, Some(true))
  }

  /** What the state machine's `Revoked` stands for. */
  function Outcome(r: Rings, search: bool, revoke: bool, unlink: bool): (o: Revoked)
    requires r.WellFormed()
  {
    var (s, reported) := RevokeCache(r, search, revoke, unlink);
    if reported.None? then RevokeFailed
    else if (if revoke || r.Found().None? then true else unlink) then Cleared
    else Kept
  }

  /**
   * Clearing the cache: a reported success leaves no key to be found, except
   * when both raw calls failed, which the report hides; a reported failure
   * changes nothing.
   */
  lemma RevokeExactly(r: Rings, search: bool, revoke: bool, unlink: bool)
    requires r.WellFormed() && r.Timed()
    ensures var (s, reported) := RevokeCache(r, search, revoke, unlink);
            && s.WellFormed() && s.Timed()
            && (reported.None? ==> s == r && Outcome(r, search, revoke, unlink) == RevokeFailed)
            && (reported.Some? ==>
                  && (s.Found().Some? <==> r.Found().Some? && !revoke && !unlink)
                  && (s.Found().Some? <==> Outcome(r, search, revoke, unlink) == Kept))
  {
  }

  /** `set_timeout`: changes the found key's timeout, or searches `again` and clears it when that is below one. */
  function SetCacheTimeout(r: Rings, timeout: int, search: bool, again: bool, call: bool, unlink: bool)
    : (s: (Rings, Option<bool>))
    requires r.WellFormed()
  {
    if !search then (r, None)
    else if r.Found().None? then (r, Some(false))
    else if timeout < 1 then
      var (cleared, reported) := RevokeCache(r, again, call, unlink);
      (cleared, if reported.None? then None else Some(false))
    else if !call then (r, None)
    else (TimeoutSet(r, r.Found().value, ClampSecs(timeout)), Some(true))
  }

  /**
   * No call of `set_timeout`, with any timeout and any failure, leaves a findable
   * key without one; a reported error changes nothing, a reported success is the
   * new timeout, and a key reported absent is findable if and only if it was to be
   * cleared and both calls failed: the state machine's `Kept`.
   */
  lemma SetTimeoutKeepsTimed(r: Rings, timeout: int, search: bool, again: bool, call: bool, unlink: bool)
    requires r.WellFormed() && r.Timed()
    ensures var (s, reported) := SetCacheTimeout(r, timeout, search, again, call, unlink);
            && s.WellFormed() && s.Timed()
            && (reported == None ==> s == r)
            && (reported == Some(true) ==>
                  s.Found() == r.Found() && s.Found().Some?
                  && s.keys[s.Found().value].timeout == Some(ClampSecs(timeout)))
            && (reported == Some(false) ==>
                  && (s.Found().Some? <==> r.Found().Some? && !call && !unlink)
                  && (s.Found().Some? ==> timeout < 1 && Outcome(r, again, call, unlink) == Kept))
  {
  }
}
