/**
 * While a 1Password window is open, what it was opened on stays cached, and
 * selection presents exactly that until the hard expiry and nothing afterwards.
 * Also: how long a key can live.
 */
module WindowSafety {
  import opened Basics
  import opened CachePayload
  import opened Selection
  import opened Lifecycle
  import opened Protocol

  // ------------------------------------------------------------------ coverage

  /** The open 1Password window's cache is the one it was opened on, until it expires. */
  predicate Covered(st: Store) {
    st.window.Parsed? && st.window.window.OnePassword? ==>
      && st.shown.Some?
      && st.shown.value.payload.fetchId == st.window.window.fetchId
      && st.shown.value.payload.hardExpiry == st.window.window.hardExpiry
      && (st.window.window.hardExpiry <= st.now
          || (&& st.key.Some? && st.key.value.held == st.shown.value
              && st.window.window.hardExpiry <= st.key.value.deadline))
  }

  /** A key that `window` opens on outlasts the opening, or its identity expires meanwhile. */
  predicate OpensInTime(st: Store, o: Opening) {
    OpensOnCache(st, o) ==>
      var at := st.now + o.pause + o.lag;
      st.Live(at) || st.CurrentCache().value.payload.hardExpiry <= at
  }

  /** A step that opens a window opens it in time. */
  predicate Prompt(s: State, step: Step)
    requires Enabled(s, step)
  {
    step.OpenWindow? && WindowIn(s.store, s.procs[step.p].seqno, step.o).1.Opened? ==> OpensInTime(s.store, step.o)
  }

  /**
   * Opening a window on the cache covers it exactly when the key outlasts the
   * opening itself, or the identity expires meanwhile. A key that dies between
   * the cache check and the timeout call leaves a window with no cache.
   */
  lemma OpeningCovers(st: Store, seqno: nat, o: Opening)
    requires WindowIn(st, seqno, o).1.Opened?
    ensures Covered(WindowIn(st, seqno, o).0) <==> OpensInTime(st, o)
  {
  }

  /** Every step but an opening keeps the coverage, and an opening does exactly when it is in time. */
  lemma CoveredStep(s: State, step: Step)
    requires Enabled(s, step) && Covered(s.store)
    ensures Covered(StoreAfter(s, step)) <==> Prompt(s, step)
  {
    if step.OpenWindow? && WindowIn(s.store, s.procs[step.p].seqno, step.o).1.Opened? {
      OpeningCovers(s.store, s.procs[step.p].seqno, step.o);
    }
  }

  lemma {:induction false} CoveredUpTo(states: seq<State>, steps: seq<Step>, n: nat)
    requires Run(states, steps) && Covered(states[0].store) && n < |states|
    requires forall i :: 0 <= i < n ==> Prompt(states[i], steps[i])
    ensures Covered(states[n].store)
  {
    if n > 0 {
      CoveredUpTo(states, steps, n - 1);
      CoveredStep(states[n - 1], steps[n - 1]);
    }
  }

  /** In every run: the window is covered in all states if and only if every opening is in time. */
  lemma CoveredAlways(states: seq<State>, steps: seq<Step>)
    requires Run(states, steps) && Covered(states[0].store)
    ensures (forall n :: 0 <= n < |states| ==> Covered(states[n].store))
            <==> forall i :: 0 <= i < |steps| ==> Prompt(states[i], steps[i])
  {
    if forall i :: 0 <= i < |steps| ==> Prompt(states[i], steps[i]) {
      forall n | 0 <= n < |states|
        ensures Covered(states[n].store)
      {
        CoveredUpTo(states, steps, n);
      }
    }
    if forall n :: 0 <= n < |states| ==> Covered(states[n].store) {
      forall i | 0 <= i < |steps|
        ensures Prompt(states[i], steps[i])
      {
        assert Covered(states[i].store) && Covered(states[i + 1].store);
        CoveredStep(states[i], steps[i]);
      }
    }
  }

  /** What selection presents in this state. */
  function Presented(st: Store, disk: DiskState, pair: PairState, root: bool): (c: Choice) {
    Select(Some(st.source), st.window, st.CacheSeen(), disk, pair, root, st.now)
  }

  /**
   * With a 1Password window open, selection presents the payload the window was
   * opened on before its hard expiry, and nothing from then on, whatever there is
   * on disk.
   */
  ghost predicate PresentsItsOwn(st: Store) {
    st.window.Parsed? && st.window.window.OnePassword? ==>
      if st.now < st.window.window.hardExpiry then
        && (forall disk, pair, root :: Presented(st, disk, pair, root) == Chosen(FromCache, true, false, []))
        && st.CurrentCache().Some? && st.CurrentCache() == st.shown
      else forall disk, pair, root :: Presented(st, disk, pair, root) == Selection.Refused("window-expired")
  }

  lemma CoveredPresents(st: Store)
    requires Covered(st)
    ensures PresentsItsOwn(st)
  {
  }

  /** An opening presents the right identity exactly when it is in time. */
  lemma OpeningPresents(st: Store, seqno: nat, o: Opening)
    requires WindowIn(st, seqno, o).1.Opened?
    ensures PresentsItsOwn(WindowIn(st, seqno, o).0) <==> OpensInTime(st, o)
  {
    OpeningCovers(st, seqno, o);
    if OpensInTime(st, o) {
      CoveredPresents(WindowIn(st, seqno, o).0);
    }
  }

  lemma PresentingOpensInTime(s: State, step: Step)
    requires Enabled(s, step) && PresentsItsOwn(StoreAfter(s, step))
    ensures Prompt(s, step)
  {
    if step.OpenWindow? && WindowIn(s.store, s.procs[step.p].seqno, step.o).1.Opened? {
      OpeningPresents(s.store, s.procs[step.p].seqno, step.o);
    }
  }

  /**
   * In every run: an open window's own identity is presented, and nothing else, in
   * all states if and only if every opening was in time.
   */
  lemma PresentsAlways(states: seq<State>, steps: seq<Step>)
    requires Run(states, steps) && Covered(states[0].store)
    ensures (forall n :: 0 <= n < |states| ==> PresentsItsOwn(states[n].store))
            <==> forall i :: 0 <= i < |steps| ==> Prompt(states[i], steps[i])
  {
    if forall i :: 0 <= i < |steps| ==> Prompt(states[i], steps[i]) {
      forall n | 0 <= n < |states|
        ensures PresentsItsOwn(states[n].store)
      {
        CoveredUpTo(states, steps, n);
        CoveredPresents(states[n].store);
      }
    }
    if forall n :: 0 <= n < |states| ==> PresentsItsOwn(states[n].store) {
      forall i | 0 <= i < |steps|
        ensures Prompt(states[i], steps[i])
      {
        assert PresentsItsOwn(states[i + 1].store);
        PresentingOpensInTime(states[i], steps[i]);
      }
    }
  }

  /**
   * In every interleaving: with a 1Password window open, before its hard expiry
   * selection presents the cache, which is the very payload the window was
   * opened on; from the hard expiry on it presents nothing at all.
   */
  lemma WindowIdentity(states: seq<State>, steps: seq<Step>, n: nat,
                       disk: DiskState, pair: PairState, root: bool)
    requires Run(states, steps) && Covered(states[0].store) && n < |states|
    requires forall i :: 0 <= i < n ==> Prompt(states[i], steps[i])
    requires states[n].store.window.Parsed? && states[n].store.window.window.OnePassword?
    ensures var st := states[n].store;
            var choice := Select(Some(st.source), st.window, st.CacheSeen(), disk, pair, root, st.now);
            if st.now < st.window.window.hardExpiry then
              choice == Chosen(FromCache, true, false, []) && st.CurrentCache() == st.shown
            else
              choice == Selection.Refused("window-expired")
  {
    CoveredUpTo(states, steps, n);
  }

  // ------------------------------------------------------------------ lifetimes

  predicate KeyBounded(st: Store, slack: nat) {
    st.key.Some? ==>
      && WellFormed(st.key.value.held.payload)
      && st.key.value.deadline <= st.key.value.held.payload.hardExpiry + slack
  }

  /** Every payload held or cached is well formed, and the key dies within `slack` of its hard expiry. */
  predicate Bounded(s: State, slack: nat) {
    && KeyBounded(s.store, slack)
    && forall p :: p in s.procs && s.procs[p].FillHeld? ==> WellFormed(s.procs[p].fetched.payload)
  }

  function LagOf(step: Step): (n: nat) {
    match step
    case Publish(_, lag, _) => lag
    case OpenWindow(_, o) => o.lag
    case StopEnd(_, c) => c.lag
    case _ => 0
  }

  lemma BoundedStore(s: State, step: Step, slack: nat)
    requires Enabled(s, step) && Bounded(s, slack) && LagOf(step) <= slack
    ensures KeyBounded(StoreAfter(s, step), slack)
  {
  }

  lemma HeldStep(s: State, step: Step)
    requires Enabled(s, step) && Actor(step).Some?
    ensures ProcAfter(s, step).Some? && ProcAfter(s, step).value.FillHeld? ==>
              WellFormed(ProcAfter(s, step).value.fetched.payload)
  {
  }

  lemma BoundedStep(s: State, step: Step, slack: nat)
    requires Enabled(s, step) && Bounded(s, slack) && LagOf(step) <= slack
    ensures Bounded(Do(s, step), slack)
  {
    BoundedStore(s, step, slack);
    forall q | q in Do(s, step).procs && Do(s, step).procs[q].FillHeld?
      ensures WellFormed(Do(s, step).procs[q].fetched.payload)
    {
      OthersStay(s, step, q);
      if Actor(step).Some? {
        HeldStep(s, step);
      }
    }
  }

  /**
   * In every run whose timeout calls take at most `slack` seconds, the key's
   * deadline passes the payload's hard expiry by at most `slack`, and the hard
   * expiry the fetch by at most a day.
   */
  lemma {:induction false} KeyLifetime(states: seq<State>, steps: seq<Step>, n: nat, slack: nat)
    requires Run(states, steps) && Bounded(states[0], slack)
    requires forall i :: 0 <= i < |steps| ==> LagOf(steps[i]) <= slack
    requires n < |states|
    ensures Bounded(states[n], slack)
    ensures states[n].store.key.Some? ==>
              var k := states[n].store.key.value;
              k.deadline <= k.held.payload.fetchedAt + MAX_LIFETIME + slack
  {
    if n > 0 {
      KeyLifetime(states, steps, n - 1, slack);
      BoundedStep(states[n - 1], steps[n - 1], slack);
    }
  }

  /** A new 1Password window opens only inside the fetch period, on the live cache's identity. */
  lemma OpensInsidePeriod(st: Store, seqno: nat, o: Opening)
    requires WindowIn(st, seqno, o).1.Opened? && WindowIn(st, seqno, o).1.window.OnePassword?
    ensures st.source == "1password" && st.Live(st.now)
    ensures var p := st.key.value.held.payload;
            && st.now < p.periodEnds
            && WindowIn(st, seqno, o).1.window == OnePassword(p.fetchId, p.hardExpiry)
            && WindowIn(st, seqno, o).0.shown == Some(st.key.value.held)
  {
  }

  /** Clearing the key at `stop-end` reports success and leaves the key, which lives on. */
  predicate ClearedInVain(st: Store, c: Closing) {
    && c.timed.clearing.Kept? && st.CurrentCache().Some?
    && st.CurrentCache().value.payload.periodEnds <= st.now + c.pause
    && st.Live(st.now + c.pause + c.lag)
    && st.CurrentCache().value.payload.hardExpiry > st.now + c.pause + c.lag
  }

  /**
   * After a `stop-end` that removed the file and read the cache, and whose timeout
   * call reported no error, there is no window; and the key is gone, or dies within
   * the call's lag of the fetch period's end, or is past its hard expiry, if and
   * only if it was not cleared in vain.
   */
  lemma StopEndShortens(st: Store, c: Closing)
    requires c.removed && c.readable && c.timed.works && !c.timed.clearing.RevokeFailed?
    ensures var t := StopEndIn(st, c);
            && t.window == Absent
            && ((|| !t.Live(t.now)
                 || t.key.value.deadline <= t.key.value.held.payload.periodEnds + c.lag
                 || t.key.value.held.payload.hardExpiry <= t.now)
                <==> !ClearedInVain(st, c))
  {
  }
}
