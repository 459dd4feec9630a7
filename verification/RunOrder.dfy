/**
 * What the two counters promise over a whole run: a fetch is published, and a
 * window is opened, only if no command that cancels it ran meanwhile.
 */
module RunOrder {
  import opened Basics
  import opened Lifecycle
  import opened Protocol

  /** The commands that cancel every fetch still out. */
  predicate Cancels(s: State, step: Step)
    requires Enabled(s, step)
  {
    match step
    case Lock(_) => s.store.window.Absent?
    case OnePasswordOff(_, _) => s.store.window.Absent?
    case UseStart(_) => true
    case Adopt(p, how, writes) => AdoptIn(s.store, s.procs[p].item, s.procs[p].gen, how, writes).1
    case _ => false
  }

  /** A `stop-begin` that wrote the moved sequence number. */
  predicate WritesStop(step: Step) { step.StopBegin? && step.bumped }

  /** The generation moves exactly when a command cancels, the sequence number exactly at a stop. */
  lemma CountersStep(s: State, step: Step)
    requires Enabled(s, step)
    ensures StoreAfter(s, step).gen == s.store.gen + if Cancels(s, step) then 1 else 0
    ensures StoreAfter(s, step).seqno == s.store.seqno + if WritesStop(step) then 1 else 0
  {
  }

  lemma {:induction false} CountersGrow(states: seq<State>, steps: seq<Step>, i: nat, k: nat)
    requires Run(states, steps) && i <= k < |states|
    ensures states[i].store.gen <= states[k].store.gen
    decreases k - i
  {
    if i < k {
      CountersStep(states[i], steps[i]);
      CountersGrow(states, steps, i + 1, k);
    }
  }

  // ------------------------------------------------------------------ publishing

  predicate Carries(s: State, p: Pid, gen: nat) {
    p in s.procs && (s.procs[p].FillReady? || s.procs[p].FillNamed? || s.procs[p].FillHeld?) ==> s.procs[p].gen == gen
  }

  lemma CarriesStep(s: State, step: Step, p: Pid, gen: nat)
    requires Enabled(s, step) && Carries(s, p, gen) && step != ReadGen(p)
    ensures Carries(Do(s, step), p, gen)
  {
    if p in Do(s, step).procs {
      OthersStay(s, step, p);
    }
  }

  lemma {:induction false} CarriesOn(states: seq<State>, steps: seq<Step>, p: Pid, i: nat, k: nat)
    requires Run(states, steps) && i < k < |states| && steps[i] == ReadGen(p)
    requires forall j :: i < j < k ==> steps[j] != ReadGen(p)
    ensures Carries(states[k], p, states[i].store.gen)
  {
    if k > i + 1 {
      CarriesOn(states, steps, p, i, k - 1);
      CarriesStep(states[k - 1], steps[k - 1], p, states[i].store.gen);
    } else {
      assert states[k] == Do(states[i], steps[i]);
    }
  }

  /**
   * A payload is published only if no `lock`, `use`, `1password-off` or adoption
   * took effect since its `fill_cache` read the generation.
   */
  lemma PublishedOnlyIfUndisturbed(states: seq<State>, steps: seq<Step>, p: Pid, i: nat, k: nat, j: nat)
    requires Run(states, steps) && i < j < k < |steps|
    requires steps[i] == ReadGen(p) && steps[k].Publish? && steps[k].p == p
    requires forall m :: i < m < k ==> steps[m] != ReadGen(p)
    requires var at := states[k].procs[p];
             PublishIn(states[k].store, at.fetched, at.gen, steps[k].lag, steps[k].linked).1.Published?
    ensures !Cancels(states[j], steps[j])
  {
    CarriesOn(states, steps, p, i, k);
    CountersGrow(states, steps, i, j);
    CountersStep(states[j], steps[j]);
    CountersGrow(states, steps, j + 1, k);
  }

  // ------------------------------------------------------------------ opening

  /** `on` and `off` hold the lock through their locked part, and an `on` that is up is not stale. */
  ghost predicate HoldersSound(s: State) {
    forall q :: q in s.procs ==> HolderSound(s, q, s.procs[q])
  }

  predicate HolderSound(s: State, q: Pid, at: Proc) {
    && (at.OnLocked? || at.OnUp? || at.OffLocked? || at.OffStopping? ==> s.lock == Some(q))
    && (at.OnUp? ==> at.seqno == s.store.seqno)
  }

  lemma HolderStep(s: State, step: Step, q: Pid)
    requires Enabled(s, step) && HoldersSound(s) && q in Do(s, step).procs
    ensures HolderSound(Do(s, step), q, Do(s, step).procs[q])
  {
    OthersStay(s, step, q);
    if q in s.procs {
      assert HolderSound(s, q, s.procs[q]);
    }
    if Actor(step) == Some(q) {
      HolderMoves(s, step, q);
    } else {
      CountersStep(s, step);
    }
  }

  lemma HolderMoves(s: State, step: Step, q: Pid)
    requires Enabled(s, step) && Actor(step) == Some(q) && ProcAfter(s, step).Some?
    requires q in s.procs ==> HolderSound(s, q, s.procs[q])
    ensures HolderSound(Do(s, step), q, ProcAfter(s, step).value)
  {
  }

  lemma {:induction false} HoldersAlways(states: seq<State>, steps: seq<Step>, n: nat)
    requires Run(states, steps) && HoldersSound(states[0]) && n < |states|
    ensures HoldersSound(states[n])
  {
    if n > 0 {
      HoldersAlways(states, steps, n - 1);
      forall q | q in states[n].procs
        ensures HolderSound(states[n], q, states[n].procs[q])
      {
        HolderStep(states[n - 1], steps[n - 1], q);
      }
    }
  }

  predicate Printed(s: State, p: Pid, seqno: nat) {
    p in s.procs && (s.procs[p].OnBegun? || s.procs[p].OnLocked? || s.procs[p].OnUp?) ==> s.procs[p].seqno == seqno
  }

  lemma PrintedStep(s: State, step: Step, p: Pid, seqno: nat)
    requires Enabled(s, step) && Printed(s, p, seqno) && step != Begin(p)
    ensures Printed(Do(s, step), p, seqno)
  {
    if p in Do(s, step).procs {
      OthersStay(s, step, p);
    }
  }

  lemma {:induction false} PrintedOn(states: seq<State>, steps: seq<Step>, p: Pid, i: nat, k: nat)
    requires Run(states, steps) && i < k < |states| && steps[i] == Begin(p)
    requires forall j :: i < j < k ==> steps[j] != Begin(p)
    ensures Printed(states[k], p, states[i].store.seqno)
  {
    if k > i + 1 {
      PrintedOn(states, steps, p, i, k - 1);
      PrintedStep(states[k - 1], steps[k - 1], p, states[i].store.seqno);
    } else {
      assert states[k] == Do(states[i], steps[i]);
    }
  }

  lemma {:induction false} SeqnoStays(states: seq<State>, steps: seq<Step>, i: nat, k: nat)
    requires Run(states, steps) && i <= k < |states|
    ensures states[k].store.seqno >= states[i].store.seqno
    ensures states[k].store.seqno == states[i].store.seqno <==> forall j :: i <= j < k ==> !WritesStop(steps[j])
  {
    if i < k {
      SeqnoStays(states, steps, i, k - 1);
      CountersStep(states[k - 1], steps[k - 1]);
    }
  }

  predicate IsOn(at: Proc) { at.OnBegun? || at.OnLocked? || at.OnUp? }

  /**
   * In every run, an `on` is not stale if and only if no `stop-begin` wrote its
   * move since the `begin` that printed the `on`'s number. A `stop-begin` that
   * could not write is missed.
   */
  lemma NotStaleExactly(states: seq<State>, steps: seq<Step>, p: Pid, i: nat, k: nat)
    requires Run(states, steps) && i < k < |states| && steps[i] == Begin(p)
    requires forall m :: i < m < k ==> steps[m] != Begin(p)
    requires p in states[k].procs && IsOn(states[k].procs[p])
    ensures states[k].procs[p].seqno == states[k].store.seqno <==> forall j :: i < j < k ==> !WritesStop(steps[j])
  {
    PrintedOn(states, steps, p, i, k);
    SeqnoStays(states, steps, i + 1, k);
    assert states[i + 1].store.seqno == states[i].store.seqno;
  }

  /** In every run, `window` goes past its check if and only if no `stop-begin` wrote its move since that `begin`. */
  lemma OpensExactly(states: seq<State>, steps: seq<Step>, p: Pid, i: nat, k: nat)
    requires Run(states, steps) && i < k < |steps| && steps[i] == Begin(p)
    requires forall m :: i < m < k ==> steps[m] != Begin(p)
    requires steps[k].OpenWindow? && steps[k].p == p
    ensures !WindowIn(states[k].store, states[k].procs[p].seqno, steps[k].o).1.StaleSeq?
            <==> forall j :: i < j < k ==> !WritesStop(steps[j])
  {
    NotStaleExactly(states, steps, p, i, k);
  }

  /** The steps by which an `on` takes effect: its window, its receiver, its radio. */
  predicate TakesEffect(s: State, step: Step)
    requires Enabled(s, step)
  {
    || step.StartReceiver? || step.StartRadio?
    || (step.OpenWindow? && !WindowIn(s.store, s.procs[step.p].seqno, step.o).1.StaleSeq?)
  }

  /**
   * An `on` takes effect only if no `stop-begin` wrote its move since the `begin`
   * that printed the `on`'s number, up to that very step.
   */
  lemma OnOnlyIfNotStopped(states: seq<State>, steps: seq<Step>, p: Pid, i: nat, k: nat)
    requires Run(states, steps) && HoldersSound(states[0]) && i < k < |steps| && steps[i] == Begin(p)
    requires TakesEffect(states[k], steps[k]) && Actor(steps[k]) == Some(p)
    requires forall m :: i < m < k ==> steps[m] != Begin(p)
    ensures forall j :: i < j < k ==> !WritesStop(steps[j])
  {
    HoldersAlways(states, steps, k);
    assert HolderSound(states[k], p, states[k].procs[p]);
    NotStaleExactly(states, steps, p, i, k);
  }

  /** A stale `on` changes nothing at all; it only ends and lets go of the lock. */
  lemma StaleOnTouchesNothing(s: State, p: Pid, o: Opening)
    requires Enabled(s, OpenWindow(p, o)) && s.procs[p].seqno != s.store.seqno
    ensures Do(s, OpenWindow(p, o)) == s.(procs := s.procs - {p}, lock := None)
  {
  }
}
