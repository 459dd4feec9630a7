/**
 * Which identity an opening fixes, and that an open window presents the one its
 * opening fixed, in every run.
 */
module WindowChoice {
  import opened Basics
  import opened CachePayload
  import opened Selection
  import opened Lifecycle
  import opened Protocol
  import opened WindowSafety

  /** In 1Password mode, the cache was read, lives, and is inside its period. */
  predicate UsableCache(st: Store, o: Opening) {
    && st.source == "1password" && o.readable && st.key.Some? && st.now < st.key.value.deadline
    && st.now < st.key.value.held.payload.hardExpiry && st.now < st.key.value.held.payload.periodEnds
  }

  /** What a new window is for, given what its opening found. */
  predicate Fixes(st: Store, o: Opening, w: Window) {
    && (w.OnePassword? <==> UsableCache(st, o))
    && (w.OnePassword? ==>
          var p := st.key.value.held.payload; w.fetchId == p.fetchId && w.hardExpiry == p.hardExpiry)
    && (w.Disk? <==> st.source == "disk" && o.diskGood)
  }

  /**
   * An opening fixes the cached identity exactly in 1Password mode with a usable
   * cache, the identity on disk exactly in disk mode with a good one, and otherwise
   * the self-signed pair.
   */
  lemma OpeningFixes(st: Store, seqno: nat, o: Opening)
    requires WindowIn(st, seqno, o).1.Opened?
    ensures Fixes(st, o, WindowIn(st, seqno, o).1.window)
    ensures WindowIn(st, seqno, o).0.window == Parsed(WindowIn(st, seqno, o).1.window)
  {
  }

  /** An opening succeeds exactly when nobody turned off meanwhile, no window is open, and its calls work. */
  lemma OpensExactlyWhen(st: Store, seqno: nat, o: Opening)
    requires UsableCache(st, o) ==> o.timed.works && !o.timed.clearing.RevokeFailed?
    ensures WindowIn(st, seqno, o).1.Opened? <==> seqno == st.seqno && !st.window.Parsed? && o.written
  {
  }

  /** The step at `j` opened the window that is open at `k`. */
  ghost predicate OpenedAt(states: seq<State>, steps: seq<Step>, j: nat, k: nat)
    requires Run(states, steps) && j < |steps| && k < |states|
  {
    && steps[j].OpenWindow?
    && var s := states[j];
       var result := WindowIn(s.store, s.procs[steps[j].p].seqno, steps[j].o).1;
       result.Opened? && states[k].store.window == Parsed(result.window)
  }

  lemma WindowStep(s: State, step: Step)
    requires Enabled(s, step)
    ensures var w := StoreAfter(s, step).window;
            || w == s.store.window || w.Absent?
            || (step.OpenWindow?
                && var r := WindowIn(s.store, s.procs[step.p].seqno, step.o).1; r.Opened? && w == Parsed(r.window))
  {
  }

  /** Every window was opened by some step, and is still what that step fixed. */
  lemma {:induction false} FindOpening(states: seq<State>, steps: seq<Step>, k: nat) returns (j: nat)
    requires Run(states, steps) && k < |states|
    requires !states[0].store.window.Parsed? && states[k].store.window.Parsed?
    ensures j < k && OpenedAt(states, steps, j, k)
  {
    WindowStep(states[k - 1], steps[k - 1]);
    if states[k - 1].store.window == states[k].store.window {
      j := FindOpening(states, steps, k - 1);
    } else {
      j := k - 1;
    }
  }

  /** What selection presents under each kind of window: its own kind of identity or an error, never another. */
  lemma PresentsItsKind(st: Store, disk: DiskState, pair: PairState, root: bool)
    requires st.window.Parsed?
    ensures var c := Presented(st, disk, pair, root);
            && (st.window.window.OnePassword? && c.Chosen? ==> c.identity == FromCache)
            && (st.window.window.Disk? ==>
                  if disk.certificate && disk.key && disk.matches then c == Chosen(FromDisk, disk.record, false, [])
                  else c.Refused?)
            && (st.window.window.SelfSigned? ==>
                  if pair.certificate && pair.key then c == Chosen(FromPair, false, false, [])
                  else if !pair.certificate && !pair.key && !root then c == Chosen(FromPair, false, true, [])
                  else c.Refused?)
  {
  }

  /**
   * In every run, whatever was changed since: an open window is the one some opening
   * fixed from the mode and the identities it found, and what selection presents
   * while it is open is of that kind or an error.
   */
  lemma WindowKeepsItsChoice(states: seq<State>, steps: seq<Step>, k: nat,
                             disk: DiskState, pair: PairState, root: bool) returns (j: nat)
    requires Run(states, steps) && k < |states|
    requires !states[0].store.window.Parsed? && states[k].store.window.Parsed?
    ensures j < k && OpenedAt(states, steps, j, k)
    ensures Fixes(states[j].store, steps[j].o, states[k].store.window.window)
    ensures var c := Presented(states[k].store, disk, pair, root);
            c.Chosen? ==>
              && (c.identity == FromCache <==> UsableCache(states[j].store, steps[j].o))
              && (c.identity == FromDisk <==> states[j].store.source == "disk" && steps[j].o.diskGood)
  {
    j := FindOpening(states, steps, k);
    OpeningFixes(states[j].store, states[j].procs[steps[j].p].seqno, steps[j].o);
    PresentsItsKind(states[k].store, disk, pair, root);
  }
}
