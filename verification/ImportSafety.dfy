/**
 * `import` moves the Apple identity into 1Password and deletes the copies on
 * disk; no interleaving and no crash loses a file.
 */
module ImportSafety {
  import opened Basics
  import opened Lifecycle
  import opened Protocol

  // ------------------------------------------------------------------ nothing is lost

  /** Every original file is on disk, or some 1Password item holds the same bytes. */
  ghost predicate NothingLost(s: State, original: Files) {
    forall f :: f in original ==>
      || (f in s.disk && s.disk[f] == original[f])
      || exists i :: i in s.items && f in s.items[i] && s.items[i][f] == original[f]
  }

  /** What an import knows of the disk and of the item it checked. */
  ghost predicate ImportSound(disk: Files, items: map<ItemRef, Files>, original: Files, at: Proc) {
    match at
    case ImpReading(_, present, next) =>
      && SameFiles(present, original)
      && forall n :: 0 <= n < next && n < |FILES| && FILES[n] in disk ==> FILES[n] in present
    case ImpFresh(_, present) => SameFiles(present, original) && disk.Keys <= present.Keys
    case ImpMade(_, present, _) => SameFiles(present, original) && disk.Keys <= present.Keys
    case ImpSaved(_, present, _) => SameFiles(present, original) && disk.Keys <= present.Keys
    case ImpRerun(_, present, _) => SameFiles(present, original) && disk.Keys <= present.Keys
    case ImpNamed(_, present, _, _) => SameFiles(present, original) && disk.Keys <= present.Keys
    case ImpVerified(_, present, item) =>
      && SameFiles(present, original) && disk.Keys <= present.Keys
      && item in items && SameFiles(present, items[item])
    case ImpDeleting(present, item, _) =>
      && SameFiles(present, original) && disk.Keys <= present.Keys
      && item in items && SameFiles(present, items[item])
    case _ => true
  }

  ghost predicate ImportsSound(s: State, original: Files) {
    && SameFiles(s.disk, original)
    && NothingLost(s, original)
    && forall q :: q in s.procs ==> ImportSound(s.disk, s.items, original, s.procs[q])
  }

  lemma DiskShrinks(s: State, step: Step)
    requires Enabled(s, step)
    ensures Do(s, step).disk.Keys <= s.disk.Keys && SameFiles(Do(s, step).disk, s.disk)
    ensures forall i :: i in s.items ==> i in Do(s, step).items && Do(s, step).items[i] == s.items[i]
  {
  }

  lemma EveryFileIsListed(disk: Files, present: Files)
    requires forall n :: 0 <= n < |FILES| && FILES[n] in disk ==> FILES[n] in present
    ensures disk.Keys <= present.Keys
  {
    assert FILES[0] == Certificate && FILES[1] == PrivateKey && FILES[2] == Record;
    forall f | f in disk
      ensures f in present
    {
      match f
      case Certificate => assert FILES[0] in disk ==> FILES[0] in present;
      case PrivateKey => assert FILES[1] in disk ==> FILES[1] in present;
      case Record => assert FILES[2] in disk ==> FILES[2] in present;
    }
  }

  predicate Reads(step: Step) { step.ImpStart? || step.ImpRead? || step.ImpSettings? }

  lemma ImportReads(s: State, step: Step, original: Files)
    requires Enabled(s, step) && ImportsSound(s, original) && Reads(step) && ProcAfter(s, step).Some?
    ensures ImportSound(Do(s, step).disk, Do(s, step).items, original, ProcAfter(s, step).value)
  {
    if !step.ImpStart? {
      var at := s.procs[step.p];
      assert ImportSound(s.disk, s.items, original, at);
      if step.ImpSettings? {
        EveryFileIsListed(s.disk, at.present);
      }
    }
  }

  lemma ImportMoves(s: State, step: Step, original: Files)
    requires Enabled(s, step) && ImportsSound(s, original)
    requires Actor(step).Some? && ProcAfter(s, step).Some?
    ensures ImportSound(Do(s, step).disk, Do(s, step).items, original, ProcAfter(s, step).value)
  {
    if Reads(step) {
      ImportReads(s, step, original);
    } else if step.p in s.procs {
      DiskShrinks(s, step);
      assert ImportSound(s.disk, s.items, original, s.procs[step.p]);
    }
  }

  lemma ImportStays(s: State, step: Step, original: Files, at: Proc)
    requires Enabled(s, step) && ImportSound(s.disk, s.items, original, at)
    ensures ImportSound(Do(s, step).disk, Do(s, step).items, original, at)
  {
    DiskShrinks(s, step);
  }

  lemma NothingLostStep(s: State, step: Step, original: Files)
    requires Enabled(s, step) && ImportsSound(s, original)
    ensures NothingLost(Do(s, step), original)
  {
    var t := Do(s, step);
    DiskShrinks(s, step);
    forall f | f in original
      ensures || (f in t.disk && t.disk[f] == original[f])
              || exists i :: i in t.items && f in t.items[i] && t.items[i][f] == original[f]
    {
      if f in s.disk && s.disk[f] == original[f] {
        if step.ImpDelete? && f == DELETE_ORDER[s.procs[step.p].next] {
          var at := s.procs[step.p];
          assert ImportSound(s.disk, s.items, original, at);
          assert f in at.present;
          assert at.item in t.items && f in t.items[at.item] && t.items[at.item][f] == original[f];
        }
      } else {
        var i :| i in s.items && f in s.items[i] && s.items[i][f] == original[f];
        assert i in t.items && f in t.items[i] && t.items[i][f] == original[f];
      }
    }
  }

  /**
   * At every point of every run, whichever imports run, crash or rerun together,
   * each Apple file is on disk or in some 1Password item, byte for byte.
   */
  lemma {:induction false} ImportLosesNothing(states: seq<State>, steps: seq<Step>, n: nat, original: Files)
    requires Run(states, steps) && ImportsSound(states[0], original) && n < |states|
    ensures ImportsSound(states[n], original)
  {
    if n > 0 {
      ImportLosesNothing(states, steps, n - 1, original);
      var s, step := states[n - 1], steps[n - 1];
      NothingLostStep(s, step, original);
      DiskShrinks(s, step);
      forall q | q in states[n].procs
        ensures ImportSound(states[n].disk, states[n].items, original, states[n].procs[q])
      {
        OthersStay(s, step, q);
        if Actor(step) == Some(q) {
          ImportMoves(s, step, original);
        } else {
          ImportStays(s, step, original, s.procs[q]);
        }
      }
    }
  }

  /** The private key goes first: after its first deletion an import has deleted it and nothing else. */
  lemma KeyGoesFirst(s: State, p: Pid)
    requires Enabled(s, ImpDelete(p)) && s.procs[p].next == 0
    ensures Do(s, ImpDelete(p)).disk == s.disk - {PrivateKey}
  {
  }

  // ------------------------------------------------------------------ one item

  /** Items, and the items processes carry, have ids. */
  ghost predicate ItemsNamed(s: State) {
    && (forall i :: i in s.items ==> i.Named())
    && forall q :: q in s.procs ==> CarriesNamed(s.procs[q])
  }

  predicate CarriesNamed(at: Proc) {
    at.ImpMade? || at.ImpSaved? || at.ImpNamed? || at.ImpVerified? || at.UseVerified? ==> at.item.Named()
  }

  lemma CarriesNamedStep(s: State, step: Step)
    requires Enabled(s, step) && ItemsNamed(s) && Actor(step).Some? && ProcAfter(s, step).Some?
    ensures CarriesNamed(ProcAfter(s, step).value)
  {
    if step.p in s.procs {
      assert CarriesNamed(s.procs[step.p]);
    }
  }

  lemma StaysNamed(s: State, step: Step)
    requires Enabled(s, step) && ItemsNamed(s) && s.store.item.item != ""
    ensures StoreAfter(s, step).item.item != ""
  {
    if step.Adopt? || step.ImpSave? {
      assert CarriesNamed(s.procs[step.p]);
    }
  }

  lemma ItemsNamedStep(s: State, step: Step)
    requires Enabled(s, step) && ItemsNamed(s)
    ensures ItemsNamed(Do(s, step))
    ensures s.store.item.item != "" ==> StoreAfter(s, step).item.item != ""
  {
    if s.store.item.item != "" {
      StaysNamed(s, step);
    }
    forall q | q in Do(s, step).procs
      ensures CarriesNamed(Do(s, step).procs[q])
    {
      OthersStay(s, step, q);
      if Actor(step) == Some(q) {
        CarriesNamedStep(s, step);
      }
    }
  }

  /**
   * Once the settings name an item, no import started from then on creates
   * another one, however it interleaves with others.
   */
  lemma {:induction false} NoSecondItem(states: seq<State>, steps: seq<Step>, p: Pid, i: nat, k: nat)
    requires Run(states, steps) && i <= k < |states| && ItemsNamed(states[i])
    requires states[i].store.item.item != "" && p !in states[i].procs
    ensures ItemsNamed(states[k]) && states[k].store.item.item != ""
    ensures p in states[k].procs ==> !states[k].procs[p].ImpFresh?
    ensures k < |steps| ==> !(steps[k].ImpCreate? && steps[k].p == p)
  {
    if i < k {
      NoSecondItem(states, steps, p, i, k - 1);
      ItemsNamedStep(states[k - 1], steps[k - 1]);
      if p in states[k].procs {
        OthersStay(states[k - 1], steps[k - 1], p);
      }
    }
  }

  // ------------------------------------------------------------------ what an import made

  lemma {:induction false} ItemsStay(states: seq<State>, steps: seq<Step>, j: nat, k: nat)
    requires Run(states, steps) && j <= k < |states|
    ensures SameFiles(states[k].disk, states[j].disk)
    ensures forall i :: i in states[j].items ==> i in states[k].items && states[k].items[i] == states[j].items[i]
  {
    if j < k {
      ItemsStay(states, steps, j, k - 1);
      DiskShrinks(states[k - 1], steps[k - 1]);
    }
  }

  /** The item is there, whole, and what is left on disk is in it. */
  predicate Agrees(s: State, item: ItemRef) {
    item.Named() && item in s.items && Complete(s.items[item]) && SameFiles(s.disk, s.items[item])
  }

  /** In every run: an item that an import made agrees with the disk in every later state. */
  lemma MadeItemAgrees(states: seq<State>, steps: seq<Step>, j: nat, k: nat)
    requires Run(states, steps) && j < k < |states| && steps[j].ImpCreate?
    ensures Agrees(states[k], steps[j].item)
  {
    ItemsStay(states, steps, j + 1, k);
  }

  // ------------------------------------------------------------------ a rerun finishes

  /**
   * A step that does not get in the way of the import `p`: one of its own whose
   * calls succeed, or another's that leaves the generation, the window and the
   * identity settings alone.
   */
  predicate Undisturbed(s: State, step: Step, p: Pid)
    requires Enabled(s, step)
  {
    if Actor(step) == Some(p) then
      !step.Stop? && (step.Adopt? ==> !step.how.RevokeFailed? && step.writes >= 3)
    else
      var st := StoreAfter(s, step);
      && st.gen == s.store.gen && st.window == s.store.window
      && st.source == s.store.source && st.item == s.store.item
  }

  /** Where a rerun of `import` with the item `item` is, and what it knows. */
  ghost predicate Along(s: State, p: Pid, item: ItemRef) {
    && s.store.window.Absent? && s.store.item == item && Agrees(s, item)
    && At(s, p) && AlongProc(s, s.procs[p], item)
  }

  predicate AlongProc(s: State, at: Proc, item: ItemRef)
    requires item in s.items
  {
    match at
    case ImpReading(g, present, next) => g == s.store.gen && next <= |FILES| && SameFiles(present, s.items[item])
    case ImpRerun(g, present, committed) =>
      g == s.store.gen && SameFiles(present, s.items[item]) && committed == (s.store.source == "1password")
    case ImpNamed(g, present, committed, i) =>
      && g == s.store.gen && SameFiles(present, s.items[item]) && committed == (s.store.source == "1password")
      && i == item
    case ImpVerified(g, present, i) => g == s.store.gen && i == item
    case ImpDeleting(_, i, next) =>
      && i == item && s.store.source == "1password" && next <= |DELETE_ORDER|
      && forall n :: 0 <= n < next ==> DELETE_ORDER[n] !in s.disk
    case _ => false
  }

  /** How many steps of its own a rerun has left at most. */
  function StepsLeft(at: Proc): (n: int) {
    match at
    case ImpReading(_, _, next) => 7 + |FILES| - next
    case ImpRerun(_, _, _) => 6
    case ImpNamed(_, _, _, _) => 5
    case ImpVerified(_, _, _) => 4
    case ImpDeleting(_, _, next) => |DELETE_ORDER| - next
    case _ => 0
  }

  lemma OthersKeepAlong(s: State, step: Step, p: Pid, item: ItemRef)
    requires Enabled(s, step) && Along(s, p, item) && Undisturbed(s, step, p) && Actor(step) != Some(p)
    ensures Along(Do(s, step), p, item) && Do(s, step).procs[p] == s.procs[p]
  {
    DiskShrinks(s, step);
  }

  lemma OwnKeepsAlong(s: State, step: Step, p: Pid, item: ItemRef)
    requires Enabled(s, step) && Along(s, p, item) && Undisturbed(s, step, p) && Actor(step) == Some(p)
    ensures Along(Do(s, step), p, item) && StepsLeft(Do(s, step).procs[p]) < StepsLeft(s.procs[p])
  {
    DiskShrinks(s, step);
  }

  function Own(step: Step, p: Pid): (n: nat) { if Actor(step) == Some(p) then 1 else 0 }

  /** On its way, with at most `n` steps of its own left. */
  ghost predicate Within(s: State, p: Pid, item: ItemRef, n: int) {
    Along(s, p, item) && StepsLeft(s.procs[p]) <= n
  }

  lemma StaysWithin(s: State, step: Step, p: Pid, item: ItemRef, n: int)
    requires Enabled(s, step) && Within(s, p, item, n) && Undisturbed(s, step, p)
    ensures Within(Do(s, step), p, item, n - Own(step, p))
  {
    if Actor(step) == Some(p) {
      OwnKeepsAlong(s, step, p, item);
    } else {
      OthersKeepAlong(s, step, p, item);
    }
  }

  lemma StartsWithin(s: State, p: Pid)
    requires Enabled(s, ImpStart(p)) && Agrees(s, s.store.item)
    ensures Within(Do(s, ImpStart(p)), p, s.store.item, 10)
  {
  }

  /** The step a rerun takes next. */
  function NextStep(at: Proc, p: Pid): (step: Step) {
    match at
    case ImpReading(_, _, next) => if next < |FILES| then ImpRead(p) else ImpSettings(p)
    case ImpRerun(_, _, _) => ImpItem(p)
    case ImpNamed(_, _, _, _) => ImpCompare(p)
    case ImpVerified(_, _, _) => Adopt(p, Cleared, 3)
    case _ => ImpDelete(p)
  }

  /** A rerun is never stuck: with the lock free its next step can be taken. */
  lemma NeverStuck(s: State, p: Pid, item: ItemRef)
    requires Along(s, p, item) && StepsLeft(s.procs[p]) > 0 && s.lock.None?
    ensures var step := NextStep(s.procs[p], p); Enabled(s, step) && Undisturbed(s, step, p) && Actor(step) == Some(p)
  {
  }

  predicate Finished(s: State, item: ItemRef) {
    s.disk == map[] && s.store.source == "1password" && s.store.item == item && item in s.items
  }

  lemma NoStepsLeft(s: State, p: Pid, item: ItemRef)
    requires Along(s, p, item)
    ensures 0 <= StepsLeft(s.procs[p]) && (StepsLeft(s.procs[p]) == 0 ==> Finished(s, item))
  {
    if StepsLeft(s.procs[p]) == 0 {
      assert DELETE_ORDER[0] !in s.disk && DELETE_ORDER[1] !in s.disk && DELETE_ORDER[2] !in s.disk;
      forall f
        ensures f !in s.disk
      {
        match f
        case Certificate =>
        case PrivateKey =>
        case Record =>
      }
    }
  }

  /** How many of the steps from `a` to `k` are `p`'s. */
  function OwnSteps(steps: seq<Step>, a: nat, k: nat, p: Pid): (n: nat)
    requires k <= |steps|
  {
    if k <= a then 0 else OwnSteps(steps, a, k - 1, p) + Own(steps[k - 1], p)
  }

  /** The run leaves the import `p` undisturbed at `j`. */
  ghost predicate LeftAloneAt(states: seq<State>, steps: seq<Step>, p: Pid, j: nat)
    requires j < |states| && j < |steps|
  {
    Enabled(states[j], steps[j]) && Undisturbed(states[j], steps[j], p)
  }

  /** The run leaves the import `p` undisturbed after its start at `a`. */
  ghost predicate LeftAlone(states: seq<State>, steps: seq<Step>, p: Pid, a: nat, k: nat)
    requires k < |states| && k <= |steps|
  {
    forall j :: a < j < k ==> LeftAloneAt(states, steps, p, j)
  }

  /** The step at `j` leaves the import on its way, nearer to its end if it is the import's own. */
  ghost predicate Nearer(states: seq<State>, steps: seq<Step>, p: Pid, item: ItemRef, j: nat)
    requires j + 1 < |states| && j < |steps|
  {
    forall n :: Within(states[j], p, item, n) ==> Within(states[j + 1], p, item, n - Own(steps[j], p))
  }

  lemma RerunStep(states: seq<State>, steps: seq<Step>, p: Pid, item: ItemRef, j: nat)
    requires Run(states, steps) && j < |steps| && LeftAloneAt(states, steps, p, j)
    ensures Nearer(states, steps, p, item, j)
  {
    forall n | Within(states[j], p, item, n)
      ensures Within(states[j + 1], p, item, n - Own(steps[j], p))
    {
      StaysWithin(states[j], steps[j], p, item, n);
    }
  }

  lemma RerunBegins(states: seq<State>, steps: seq<Step>, p: Pid, a: nat, item: ItemRef)
    requires Run(states, steps) && a < |steps| && steps[a] == ImpStart(p)
    requires item == states[a].store.item && Agrees(states[a], item)
    ensures Within(states[a + 1], p, item, 10)
  {
    StartsWithin(states[a], p);
  }

  lemma {:induction false} RerunStays(states: seq<State>, steps: seq<Step>, p: Pid, a: nat, k: nat, item: ItemRef)
    requires a < k <= |steps| < |states| && Within(states[a + 1], p, item, 10)
    requires forall j :: a < j < k ==> Nearer(states, steps, p, item, j)
    ensures Within(states[k], p, item, 10 - OwnSteps(steps, a + 1, k, p))
  {
    if k > a + 1 {
      RerunStays(states, steps, p, a, k - 1, item);
      assert Nearer(states, steps, p, item, k - 1);
    }
  }

  /**
   * In every run, however others interleave: a rerun started where the settings
   * name an item that agrees with the disk, and left alone since, stays on its
   * way, and after ten steps of its own it has finished: the mode is 1Password and
   * the disk copies are gone.
   */
  lemma RerunFinishes(states: seq<State>, steps: seq<Step>, p: Pid, a: nat, k: nat, item: ItemRef)
    requires Run(states, steps) && a < k <= |steps| && steps[a] == ImpStart(p)
    requires item == states[a].store.item && Agrees(states[a], item) && LeftAlone(states, steps, p, a, k)
    ensures Along(states[k], p, item)
    ensures OwnSteps(steps, a + 1, k, p) >= 10 ==> Finished(states[k], item)
  {
    RerunBegins(states, steps, p, a, item);
    forall j | a < j < k
      ensures Nearer(states, steps, p, item, j)
    {
      assert LeftAloneAt(states, steps, p, j);
      RerunStep(states, steps, p, item, j);
    }
    RerunStays(states, steps, p, a, k, item);
    NoStepsLeft(states[k], p, item);
  }

  /** Once an import saved the ids of the item it made, every rerun left alone finishes, and is never stuck. */
  lemma RerunAfterImport(states: seq<State>, steps: seq<Step>, p: Pid, j: nat, a: nat, k: nat, item: ItemRef)
    requires Run(states, steps) && j < a < k <= |steps|
    requires steps[j].ImpCreate? && steps[j].item == item && steps[a] == ImpStart(p)
    requires states[a].store.item == item && LeftAlone(states, steps, p, a, k)
    ensures OwnSteps(steps, a + 1, k, p) >= 10 ==> Finished(states[k], item)
    ensures Along(states[k], p, item)
    ensures StepsLeft(states[k].procs[p]) > 0 && states[k].lock.None? ==>
              Enabled(states[k], NextStep(states[k].procs[p], p))
  {
    MadeItemAgrees(states, steps, j, a);
    RerunFinishes(states, steps, p, a, k, item);
    if StepsLeft(states[k].procs[p]) > 0 && states[k].lock.None? {
      NeverStuck(states[k], p, item);
    }
  }

  /** Left to itself it does finish: there is a run that takes its steps one after the other. */
  lemma {:induction false} RerunCanFinish(first: State, taken: seq<Step>, s: State, p: Pid, item: ItemRef)
    returns (steps: seq<Step>, t: State)
    requires Reaches(first, taken, s) && Along(s, p, item) && s.lock.None?
    ensures Reaches(first, steps, t) && Finished(t, item)
    decreases StepsLeft(s.procs[p])
  {
    NoStepsLeft(s, p, item);
    if StepsLeft(s.procs[p]) == 0 {
      return taken, s;
    }
    NeverStuck(s, p, item);
    var step := NextStep(s.procs[p], p);
    OwnKeepsAlong(s, step, p, item);
    NoStepsLeft(Do(s, step), p, item);
    Extend(first, taken, s, step, Do(s, step));
    steps, t := RerunCanFinish(first, taken + [step], Do(s, step), p, item);
  }
}
