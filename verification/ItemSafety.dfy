/**
 * The cached payload always comes from the 1Password item the settings name,
 * and it is published only if no command moved the generation since its fetch
 * began.
 */
module ItemSafety {
  import opened Basics
  import opened Lifecycle
  import opened Protocol

  // ------------------------------------------------------------------ the invariant

  /** Mode 1Password has an item, and the live cache is the named item's. */
  predicate StoreSound(st: Store) {
    && (st.source == "1password" ==> st.item.item != "")
    && (st.Live(st.now) ==> st.key.value.held.origin == st.item && st.item.item != "")
  }

  /** A fetch that could still be published: of the current generation, and inside its period once held. */
  predicate CurrentFill(st: Store, at: Proc) {
    match at
    case FillAsked => true
    case FillReady(g) => g == st.gen
    case FillNamed(g, _) => g == st.gen
    case FillHeld(g, f) => g == st.gen && f.payload.periodEnds > st.now
    case _ => false
  }

  /** No cache, no fetch that could become one, and no way to start one. */
  predicate Quiet(s: State) {
    && s.store.source != "1password" && !s.store.Live(s.store.now)
    && forall q :: q in s.procs ==> !CurrentFill(s.store, s.procs[q])
  }

  /**
   * What a process knows: nothing newer than the generation, and, while it is of
   * that generation, no item but the named one. An import that may still save
   * another item runs only where it is quiet; without the files it cannot make one.
   */
  predicate ProcSound(st: Store, quiet: bool, files: bool, at: Proc) {
    match at
    case FillAsked => st.item.item != ""
    case FillReady(g) => st.item.item != "" && g <= st.gen
    case FillNamed(g, i) => st.item.item != "" && g <= st.gen && (g == st.gen ==> i == st.item)
    case FillHeld(g, f) =>
      st.item.item != "" && g <= st.gen && (g == st.gen && f.payload.periodEnds > st.now ==> f.origin == st.item)
    case ImpReading(g, _, _) => g <= st.gen
    case ImpFresh(g, _) => g <= st.gen && (g == st.gen && files ==> quiet)
    case ImpMade(g, _, i) => i.item != "" && g <= st.gen && (g == st.gen ==> quiet || i == st.item)
    case ImpSaved(g, _, i) => i.item != "" && g <= st.gen
    case ImpRerun(g, _, _) => g <= st.gen
    case ImpNamed(g, _, _, i) => i.item != "" && g <= st.gen
    case ImpVerified(g, _, i) => i.item != "" && g <= st.gen
    case UseStarted(g) => g <= st.gen
    case UseVerified(g, i) => i.item != "" && g <= st.gen
    case _ => true
  }

  predicate SoundAt(s: State, at: Proc) { ProcSound(s.store, Quiet(s), Complete(s.disk), at) }

  ghost predicate Sound(s: State) {
    && StoreSound(s.store)
    && (forall i :: i in s.items ==> i.Named())
    && forall q :: q in s.procs ==> SoundAt(s, s.procs[q])
  }

  // ------------------------------------------------------------------ every step keeps it

  lemma StoreSoundStep(s: State, step: Step)
    requires Enabled(s, step) && Sound(s) && !step.Adopt?
    ensures StoreSound(StoreAfter(s, step))
    ensures StoreAfter(s, step).gen >= s.store.gen && StoreAfter(s, step).now >= s.store.now
    ensures s.store.item.item != "" ==> StoreAfter(s, step).item.item != ""
  {
    if Actor(step).Some? && Actor(step).value in s.procs {
      assert SoundAt(s, s.procs[Actor(step).value]);
    }
  }

  lemma ItemStays(s: State, step: Step)
    requires Enabled(s, step) && Sound(s) && !step.Adopt?
    ensures StoreAfter(s, step).item == s.store.item || StoreAfter(s, step).gen > s.store.gen || Quiet(s)
  {
    if Actor(step).Some? && Actor(step).value in s.procs {
      assert SoundAt(s, s.procs[Actor(step).value]);
    }
  }

  lemma ActorSound(s: State, step: Step)
    requires Enabled(s, step) && Sound(s) && !step.Adopt?
    requires Actor(step).Some? && ProcAfter(s, step).Some?
    ensures !ProcAfter(s, step).value.ImpFresh? && !ProcAfter(s, step).value.ImpMade? ==>
              ProcSound(StoreAfter(s, step), true, true, ProcAfter(s, step).value)
    ensures ProcAfter(s, step).value.ImpFresh? ==>
              ProcAfter(s, step).value.gen <= s.store.gen == StoreAfter(s, step).gen
    ensures ProcAfter(s, step).value.ImpMade? ==>
              && s.procs[step.p].ImpFresh? && ProcAfter(s, step).value.gen == s.procs[step.p].gen
              && step.item.Named() && ProcAfter(s, step).value.item == step.item
  {
    if Actor(step).value in s.procs {
      assert SoundAt(s, s.procs[Actor(step).value]);
    }
  }

  lemma QuietStore(s: State, step: Step)
    requires Enabled(s, step) && Sound(s) && !step.Adopt? && Quiet(s)
    requires StoreAfter(s, step).gen == s.store.gen
    ensures var st := StoreAfter(s, step); st.source != "1password" && !st.Live(st.now)
  {
    if step.Publish? {
      assert SoundAt(s, s.procs[step.p]) && !CurrentFill(s.store, s.procs[step.p]);
    }
  }

  lemma QuietActor(s: State, step: Step)
    requires Enabled(s, step) && Quiet(s) && Actor(step).Some? && ProcAfter(s, step).Some?
    requires StoreAfter(s, step).gen == s.store.gen
    ensures !CurrentFill(StoreAfter(s, step), ProcAfter(s, step).value)
  {
    if step.p in s.procs {
      assert !CurrentFill(s.store, s.procs[step.p]);
    }
  }

  lemma QuietStep(s: State, step: Step)
    requires Enabled(s, step) && Sound(s) && !step.Adopt? && Quiet(s)
    requires StoreAfter(s, step).gen == s.store.gen
    ensures Quiet(Do(s, step))
  {
    QuietStore(s, step);
    StoreSoundStep(s, step);
    forall q | q in Do(s, step).procs
      ensures !CurrentFill(StoreAfter(s, step), Do(s, step).procs[q])
    {
      OthersStay(s, step, q);
      if Actor(step) == Some(q) {
        QuietActor(s, step);
      } else {
        assert !CurrentFill(s.store, s.procs[q]);
      }
    }
  }

  lemma BecomesQuiet(s: State, step: Step)
    requires Enabled(s, step) && Sound(s) && step.ImpSettings? && s.store.item.item == ""
    ensures Quiet(Do(s, step))
  {
    forall q | q in Do(s, step).procs
      ensures !CurrentFill(StoreAfter(s, step), Do(s, step).procs[q])
    {
      OthersStay(s, step, q);
      if q in s.procs {
        assert SoundAt(s, s.procs[q]);
      }
    }
  }

  lemma OtherSound(s: State, step: Step, q: Pid)
    requires Enabled(s, step) && Sound(s) && !step.Adopt?
    requires q in s.procs && Actor(step) != Some(q)
    ensures SoundAt(Do(s, step), s.procs[q])
  {
    assert SoundAt(s, s.procs[q]);
    StoreSoundStep(s, step);
    ItemStays(s, step);
    if Quiet(s) && StoreAfter(s, step).gen == s.store.gen {
      QuietStep(s, step);
    }
  }

  lemma ProcsSoundStep(s: State, step: Step, q: Pid)
    requires Enabled(s, step) && Sound(s) && !step.Adopt? && q in Do(s, step).procs
    ensures SoundAt(Do(s, step), Do(s, step).procs[q])
  {
    OthersStay(s, step, q);
    if Actor(step) != Some(q) {
      OtherSound(s, step, q);
    } else {
      ActorSound(s, step);
      var at := Do(s, step).procs[q];
      if at.ImpFresh? {
        BecomesQuiet(s, step);
      } else if at.ImpMade? {
        assert SoundAt(s, s.procs[q]);
        if at.gen == s.store.gen {
          QuietStep(s, step);
        }
      }
    }
  }

  lemma OtherStepsKeepIt(s: State, step: Step)
    requires Enabled(s, step) && Sound(s) && !step.Adopt?
    ensures Sound(Do(s, step))
  {
    StoreSoundStep(s, step);
    forall q | q in Do(s, step).procs
      ensures SoundAt(Do(s, step), Do(s, step).procs[q])
    {
      ProcsSoundStep(s, step, q);
    }
  }

  // ------------------------------------------------------------------ exactly when an adoption keeps it

  /** A fetch that could still be published, its item read. */
  predicate Outstanding(s: State, q: Pid) {
    q in s.procs && (s.procs[q].FillNamed? || s.procs[q].FillHeld?) && CurrentFill(s.store, s.procs[q])
  }

  function ItemOf(at: Proc): (i: ItemRef)
    requires at.FillNamed? || at.FillHeld?
  {
    if at.FillNamed? then at.item else at.fetched.origin
  }

  /** An import of the current generation that may still save an item other than `item`. */
  predicate Importing(s: State, q: Pid, item: ItemRef) {
    && q in s.procs
    && ((s.procs[q].ImpFresh? && s.procs[q].gen == s.store.gen && Complete(s.disk))
        || (s.procs[q].ImpMade? && s.procs[q].gen == s.store.gen && s.procs[q].item != item))
  }

  /** After an adoption that wrote only the ids there is no cache and no fetch to become one. */
  predicate LeavesQuiet(s: State, step: Step)
    requires step.Adopt?
  {
    && step.writes == 1 && s.store.source != "1password"
    && (step.how.Cleared? || !s.store.Live(s.store.now))
    && forall q :: q in s.procs ==> !CurrentFill(s.store, s.procs[q])
  }

  predicate Writes(s: State, step: Step)
    requires Enabled(s, step) && step.Adopt?
  {
    Current(s.store, s.procs[step.p].gen) && !step.how.RevokeFailed? && step.writes > 0
  }

  /**
   * An adoption that gets past its checks and writes anything finds the old key
   * gone, or its own item's; and it writes the generation, or no fetch of another
   * item can still be published and no import still save another item, unless all
   * is quiet.
   */
  ghost predicate AdoptSafe(s: State, step: Step)
    requires Enabled(s, step)
  {
    step.Adopt? && Writes(s, step) ==>
      var item := s.procs[step.p].item;
      && (step.how.Cleared? || !s.store.Live(s.store.now) || s.store.key.value.held.origin == item)
      && (|| step.writes >= 3
          || (&& (forall q :: Outstanding(s, q) ==> ItemOf(s.procs[q]) == item)
              && (LeavesQuiet(s, step) || forall q :: !Importing(s, q, item))))
  }

  /** What an adoption leaves alone. */
  lemma AdoptMoves(s: State, step: Step, t: State)
    requires Enabled(s, step) && step.Adopt? && t == Do(s, step)
    ensures t.items == s.items && t.store.window == s.store.window
    ensures forall q :: q != step.p ==> (q in t.procs <==> q in s.procs) && (q in t.procs ==> t.procs[q] == s.procs[q])
    ensures step.p in t.procs ==> t.procs[step.p].ImpDeleting?
    ensures t.disk == s.disk && t.store.now == s.store.now
  {
  }

  lemma QuietExactly(s: State, step: Step, t: State)
    requires Enabled(s, step) && step.Adopt? && Writes(s, step) && step.writes < 3 && t == Do(s, step)
    ensures Quiet(t) <==> LeavesQuiet(s, step)
  {
    AdoptMoves(s, step, t);
    if LeavesQuiet(s, step) {
      forall q | q in t.procs
        ensures !CurrentFill(t.store, t.procs[q])
      {
        assert q != step.p ==> !CurrentFill(s.store, s.procs[q]);
      }
    }
    if Quiet(t) {
      forall q | q in s.procs
        ensures !CurrentFill(s.store, s.procs[q])
      {
        assert q != step.p ==> !CurrentFill(t.store, t.procs[q]);
      }
    }
  }

  lemma AdoptKeepsProc(s: State, step: Step, q: Pid, t: State)
    requires Enabled(s, step) && Sound(s) && step.Adopt? && AdoptSafe(s, step) && t == Do(s, step)
    requires q in t.procs && q != step.p
    ensures SoundAt(t, t.procs[q])
  {
    AdoptMoves(s, step, t);
    assert SoundAt(s, s.procs[q]);
    assert SoundAt(s, s.procs[step.p]);
    if Outstanding(s, q) {
      assert t.store.gen == s.store.gen ==> ItemOf(s.procs[q]) == t.store.item;
    }
    if Writes(s, step) && step.writes < 3 {
      QuietExactly(s, step, t);
      assert !LeavesQuiet(s, step) ==> !Importing(s, q, s.procs[step.p].item);
    }
  }

  lemma AdoptKeeps(s: State, step: Step)
    requires Enabled(s, step) && Sound(s) && step.Adopt? && AdoptSafe(s, step)
    ensures Sound(Do(s, step))
  {
    var t := Do(s, step);
    AdoptMoves(s, step, t);
    assert SoundAt(s, s.procs[step.p]);
    forall q | q in t.procs
      ensures SoundAt(t, t.procs[q])
    {
      if q != step.p {
        AdoptKeepsProc(s, step, q, t);
      }
    }
  }

  lemma AdoptBreaks(s: State, step: Step)
    requires Enabled(s, step) && Sound(s) && step.Adopt? && Sound(Do(s, step))
    ensures AdoptSafe(s, step)
  {
    var t := Do(s, step);
    AdoptMoves(s, step, t);
    if Writes(s, step) && step.writes < 3 {
      forall q | Outstanding(s, q)
        ensures ItemOf(s.procs[q]) == s.procs[step.p].item
      {
        assert SoundAt(t, t.procs[q]);
      }
      QuietExactly(s, step, t);
      forall q
        ensures LeavesQuiet(s, step) || !Importing(s, q, s.procs[step.p].item)
      {
        assert q in t.procs ==> SoundAt(t, t.procs[q]);
      }
    }
  }

  /** Every step but an adoption keeps the invariant, and an adoption does exactly when it is safe. */
  lemma SoundStep(s: State, step: Step)
    requires Enabled(s, step) && Sound(s)
    ensures Sound(Do(s, step)) <==> AdoptSafe(s, step)
  {
    if !step.Adopt? {
      OtherStepsKeepIt(s, step);
    } else {
      if AdoptSafe(s, step) {
        AdoptKeeps(s, step);
      }
      if Sound(Do(s, step)) {
        AdoptBreaks(s, step);
      }
    }
  }

  /**
   * In every interleaving whose adoptions are safe so far, the payload in the cache
   * comes from the item the settings name at that moment.
   */
  lemma {:induction false} CacheFromConfiguredItem(states: seq<State>, steps: seq<Step>, n: nat)
    requires Run(states, steps) && Sound(states[0]) && n < |states|
    requires forall i :: 0 <= i < n ==> AdoptSafe(states[i], steps[i])
    ensures Sound(states[n])
    ensures states[n].store.Live(states[n].store.now) ==> states[n].store.key.value.held.origin == states[n].store.item
  {
    if n > 0 {
      CacheFromConfiguredItem(states, steps, n - 1);
      SoundStep(states[n - 1], steps[n - 1]);
    }
  }

  /** In every run: the invariant holds in all states if and only if every adoption is safe. */
  lemma SoundAlways(states: seq<State>, steps: seq<Step>)
    requires Run(states, steps) && Sound(states[0])
    ensures (forall n :: 0 <= n < |states| ==> Sound(states[n]))
            <==> forall i :: 0 <= i < |steps| ==> AdoptSafe(states[i], steps[i])
  {
    if forall i :: 0 <= i < |steps| ==> AdoptSafe(states[i], steps[i]) {
      forall n | 0 <= n < |states|
        ensures Sound(states[n])
      {
        CacheFromConfiguredItem(states, steps, n);
      }
    }
    if forall n :: 0 <= n < |states| ==> Sound(states[n]) {
      forall i | 0 <= i < |steps|
        ensures AdoptSafe(states[i], steps[i])
      {
        assert Sound(states[i]) && Sound(states[i + 1]);
        SoundStep(states[i], steps[i]);
      }
    }
  }

  // ------------------------------------------------------------------ right after an adoption

  /** The cache, and every fetch that could still become it, come from `item`. */
  ghost predicate OnlyFrom(s: State, item: ItemRef) {
    && (s.store.key.Some? ==> s.store.key.value.held.origin == item)
    && forall q :: Outstanding(s, q) ==> ItemOf(s.procs[q]) == item
  }

  /**
   * An adoption that passed its checks leaves only its own item's identity in
   * reach exactly when it wrote nothing, or the old key is really gone (or was
   * the same item's) and the generation was written (or no fetch of another item
   * is out).
   */
  lemma AdoptExactly(s: State, p: Pid, how: Revoked, writes: nat)
    requires Enabled(s, Adopt(p, how, writes)) && OnlyFrom(s, s.store.item)
    requires forall q :: q in s.procs && s.procs[q].FillNamed? ==> s.procs[q].gen <= s.store.gen
    requires forall q :: q in s.procs && s.procs[q].FillHeld? ==> s.procs[q].gen <= s.store.gen
    requires Current(s.store, s.procs[p].gen) && !how.RevokeFailed?
    ensures var t := Do(s, Adopt(p, how, writes));
            var item := s.procs[p].item;
            OnlyFrom(t, t.store.item) <==>
            (writes == 0
             || (&& (how.Cleared? || s.store.key.None? || s.store.key.value.held.origin == item)
                 && (writes >= 3 || forall q :: Outstanding(s, q) ==> ItemOf(s.procs[q]) == item)))
  {
    var step := Adopt(p, how, writes);
    var t := Do(s, step);
    AdoptMoves(s, step, t);
    assert writes < 3 ==> forall q :: Outstanding(t, q) <==> Outstanding(s, q);
    assert writes >= 3 ==> forall q :: !Outstanding(t, q);
  }
}
