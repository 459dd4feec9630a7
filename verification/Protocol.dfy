/**
 * Every interleaving of the identity commands, as a state machine.
 *
 * Commands that take the lock themselves run their locked region as one step.
 * `omdrop on` and `omdrop off` hold the lock across several steps. 1Password
 * reads, settings reads outside the lock and file deletions are steps of their
 * own. A process may stop at any point (`Stop`), which also stands for a crash,
 * a failed 1Password request and a killed fetch.
 *
 * `begin` and `unlock` look at the cache and the window, outside the lock, only
 * to skip a fetch; `AskFill` leaves those two reads out, which adds runs and
 * removes none.
 */
module Protocol {
  import opened Basics
  import opened CachePayload
  import opened Lifecycle

  type Pid = nat

  datatype AppleFile = Certificate | PrivateKey | Record

  /** The order `import` deletes in: the key matters most. */
  const DELETE_ORDER: seq<AppleFile> := [PrivateKey, Record, Certificate]
  const FILES: seq<AppleFile> := [Certificate, PrivateKey, Record]

  type Files = map<AppleFile, string>

  predicate Complete(f: Files) { Certificate in f && PrivateKey in f && Record in f }

  /** Where a running command is. */
  datatype Proc =
      // filling the cache (`begin` and `unlock`)
    | FillAsked
    | FillReady(gen: nat)
    | FillNamed(gen: nat, item: ItemRef)
    | FillHeld(gen: nat, fetched: Fetched)
      // `import`
    | ImpReading(gen: nat, present: Files, next: nat)
    | ImpFresh(gen: nat, present: Files)
    | ImpMade(gen: nat, present: Files, item: ItemRef)
    | ImpSaved(gen: nat, present: Files, item: ItemRef)
    | ImpRerun(gen: nat, present: Files, committed: bool)
    | ImpNamed(gen: nat, present: Files, committed: bool, item: ItemRef)
    | ImpVerified(gen: nat, present: Files, item: ItemRef)
    | ImpDeleting(present: Files, item: ItemRef, next: nat)
      // `use`
    | UseStarted(gen: nat)
    | UseVerified(gen: nat, item: ItemRef)
      // `on`, from `begin` until its lock is released
    | OnBegun(seqno: nat)
    | OnLocked(seqno: nat)
    | OnUp(seqno: nat)
      // `off`, and `on` giving up
    | OffLocked
    | OffStopping

  predicate IsFill(p: Proc) { p.FillAsked? || p.FillReady? || p.FillNamed? || p.FillHeld? }

  datatype State = State(
    store: Store,
    items: map<ItemRef, Files>, disk: Files,
    lock: Option<Pid>, receiver: bool, radio: bool,
    procs: map<Pid, Proc>)

  datatype Step =
    | Tick(to: int)
    | Stop(p: Pid)
    | AskFill(p: Pid)
    | ReadGen(p: Pid)
    | ReadItem(p: Pid)
    | Fetch(p: Pid, fetchId: string, hours: int)
    | Publish(p: Pid, lag: nat, linked: bool)
    | Lock(how: Revoked)
    | OnePasswordOff(how: Revoked, written: bool)
    | UseStart(p: Pid)
    | UseRead(p: Pid, item: ItemRef)
    | Adopt(p: Pid, how: Revoked, writes: nat)
    | ImpStart(p: Pid)
    | ImpRead(p: Pid)
    | ImpSettings(p: Pid)
    | ImpCreate(p: Pid, item: ItemRef)
    | ImpSave(p: Pid, written: bool)
    | ImpItem(p: Pid)
    | ImpCompare(p: Pid)
    | ImpDelete(p: Pid)
    | Begin(p: Pid)
    | OffStart(p: Pid)
    | TakeLock(p: Pid)
    | OpenWindow(p: Pid, o: Opening)
    | StartReceiver(p: Pid)
    | StartRadio(p: Pid)
    | StopBegin(p: Pid, bumped: bool)
    | StopReceiver(p: Pid)
    | StopRadio(p: Pid)
    | StopEnd(p: Pid, c: Closing)

  // ------------------------------------------------------------------ processes

  predicate At(s: State, p: Pid) { p in s.procs }

  function PayloadOf(id: string, t0: int, hours: int, f: Files): (p: Payload)
    requires Complete(f)
  {
    var times := FetchedTimes(t0, hours);
    Payload(id, t0, times.0, times.1, f[Certificate], f[PrivateKey], f[Record])
  }

  /** The files read so far agree with the item's. */
  predicate SameFiles(present: Files, stored: Files) {
    forall f :: f in present ==> f in stored && stored[f] == present[f]
  }

  // ------------------------------------------------------------------ when a step may run

  predicate Enabled(s: State, step: Step) {
    match step
    case Tick(t) => s.store.now <= t
    case Stop(p) => At(s, p)
    case AskFill(p) => !At(s, p) && s.store.source == "1password"
    case ReadGen(p) => At(s, p) && s.procs[p].FillAsked? && s.lock.None?
    case ReadItem(p) => At(s, p) && s.procs[p].FillReady? && s.store.item.Named()
    case Fetch(p, id, hours) =>
      && At(s, p) && s.procs[p].FillNamed? && s.procs[p].item in s.items
      && 1 <= hours <= 24
      && Complete(s.items[s.procs[p].item])
      && WellFormed(PayloadOf(id, s.store.now, hours, s.items[s.procs[p].item]))
    case Publish(p, _, _) => At(s, p) && s.procs[p].FillHeld? && s.lock.None?
    case Lock(_) => s.lock.None?
    case OnePasswordOff(_, _) => s.lock.None?
    case UseStart(p) => !At(s, p) && s.lock.None? && s.store.window.Absent?
    case UseRead(p, item) => At(s, p) && s.procs[p].UseStarted? && item in s.items && Complete(s.items[item])
    case Adopt(p, _, _) => At(s, p) && (s.procs[p].UseVerified? || s.procs[p].ImpVerified?) && s.lock.None?
    case ImpStart(p) => !At(s, p) && s.lock.None? && s.store.window.Absent?
    case ImpRead(p) => At(s, p) && s.procs[p].ImpReading? && s.procs[p].next < |FILES|
    case ImpSettings(p) =>
      && At(s, p) && s.procs[p].ImpReading? && s.procs[p].next >= |FILES|
      && (s.store.item.item == "" ==> Complete(s.procs[p].present))
    case ImpCreate(p, item) =>
      At(s, p) && s.procs[p].ImpFresh? && Complete(s.disk) && item.Named() && item !in s.items
    case ImpSave(p, _) => At(s, p) && s.procs[p].ImpMade? && s.lock.None?
    case ImpItem(p) => At(s, p) && s.procs[p].ImpRerun? && s.store.item.Named()
    case ImpCompare(p) =>
      && At(s, p) && (s.procs[p].ImpSaved? || s.procs[p].ImpNamed?)
      && s.procs[p].item in s.items && Complete(s.items[s.procs[p].item])
      && SameFiles(s.procs[p].present, s.items[s.procs[p].item])
    case ImpDelete(p) => At(s, p) && s.procs[p].ImpDeleting? && s.procs[p].next < |DELETE_ORDER|
    case Begin(p) => !At(s, p) && s.lock.None?
    case OffStart(p) => !At(s, p) && s.lock.None?
    case TakeLock(p) => At(s, p) && s.procs[p].OnBegun? && s.lock.None?
    case OpenWindow(p, _) => At(s, p) && s.procs[p].OnLocked? && s.lock == Some(p)
    case StartReceiver(p) => At(s, p) && s.procs[p].OnUp? && s.lock == Some(p)
    case StartRadio(p) => At(s, p) && s.procs[p].OnUp? && s.lock == Some(p)
    case StopBegin(p, _) => At(s, p) && (s.procs[p].OnUp? || s.procs[p].OffLocked?) && s.lock == Some(p)
    case StopReceiver(p) => At(s, p) && (s.procs[p].OnUp? || s.procs[p].OffStopping?) && s.lock == Some(p)
    case StopRadio(p) => At(s, p) && (s.procs[p].OnUp? || s.procs[p].OffStopping?) && s.lock == Some(p)
    case StopEnd(p, _) => At(s, p) && s.procs[p].OffStopping? && s.lock == Some(p)
  }

  // ------------------------------------------------------------------ what a step does

  /** The shared files and the key after a step. */
  function StoreAfter(s: State, step: Step): (r: Store)
    requires Enabled(s, step)
  {
    var st := s.store;
    match step
    case Tick(t) => st.(now := t)
    case Publish(p, lag, linked) => PublishIn(st, s.procs[p].fetched, s.procs[p].gen, lag, linked).0
    case Lock(how) => LockIn(st, how)
    case OnePasswordOff(how, written) => OnePasswordOffIn(st, how, written)
    case UseStart(_) => st.(gen := st.gen + 1)
    case Adopt(p, how, writes) => AdoptIn(st, s.procs[p].item, s.procs[p].gen, how, writes).0
    case ImpSave(p, written) => SaveItemIn(st, s.procs[p].item, s.procs[p].gen, written).0
    case OpenWindow(p, o) => WindowIn(st, s.procs[p].seqno, o).0
    case StopBegin(_, bumped) => if bumped then StopBeginIn(st) else st
    case StopEnd(_, c) => StopEndIn(st, c)
    case _ => st
  }

  /** The process a step belongs to. */
  function Actor(step: Step): (p: Option<Pid>) {
    match step
    case Tick(_) => None
    case Lock(_) => None
    case OnePasswordOff(_, _) => None
    case _ => Some(step.p)
  }

  /** Where that process is afterwards; nowhere when it ended. */
  function ProcAfter(s: State, step: Step): (r: Option<Proc>)
    requires Enabled(s, step) && Actor(step).Some?
  {
    var st := s.store;
    match step
    case Stop(p) => None
    case AskFill(p) => Some(FillAsked)
    case ReadGen(p) => Some(FillReady(st.gen))
    case ReadItem(p) => Some(FillNamed(s.procs[p].gen, st.item))
    case Fetch(p, id, hours) =>
      var item := s.procs[p].item;
      Some(FillHeld(s.procs[p].gen, Fetched(PayloadOf(id, st.now, hours, s.items[item]), item)))
    case Publish(p, _, _) => None
    case UseStart(p) => Some(UseStarted(st.gen + 1))
    case UseRead(p, item) => Some(UseVerified(s.procs[p].gen, item))
    case Adopt(p, how, writes) =>
      var at := s.procs[p];
      if at.ImpVerified? && AdoptIn(st, at.item, at.gen, how, writes).1
      then Some(ImpDeleting(at.present, at.item, 0)) else None
    case ImpStart(p) => Some(ImpReading(st.gen, map[], 0))
    case ImpRead(p) =>
      var ImpReading(gen, present, next) := s.procs[p];
      var f := FILES[next];
      Some(ImpReading(gen, if f in s.disk then present[f := s.disk[f]] else present, next + 1))
    case ImpSettings(p) =>
      var at := s.procs[p];
      if st.item.item != "" then Some(ImpRerun(at.gen, at.present, st.source == "1password"))
      else Some(ImpFresh(at.gen, at.present))
    case ImpCreate(p, item) => Some(ImpMade(s.procs[p].gen, s.procs[p].present, item))
    case ImpSave(p, written) =>
      var at := s.procs[p];
      if SaveItemIn(st, at.item, at.gen, written).1 then Some(ImpSaved(at.gen, at.present, at.item)) else None
    case ImpItem(p) =>
      var at := s.procs[p];
      Some(ImpNamed(at.gen, at.present, at.committed, st.item))
    case ImpCompare(p) =>
      var at := s.procs[p];
      if at.ImpNamed? && at.committed then Some(ImpDeleting(at.present, at.item, 0))
      else Some(ImpVerified(at.gen, at.present, at.item))
    case ImpDelete(p) => Some(s.procs[p].(next := s.procs[p].next + 1))
    case Begin(p) => Some(OnBegun(st.seqno))
    case OffStart(p) => Some(OffLocked)
    case TakeLock(p) => Some(OnLocked(s.procs[p].seqno))
    case OpenWindow(p, o) =>
      var result := WindowIn(st, s.procs[p].seqno, o).1;
      if result.Opened? || result.Continued? then Some(OnUp(s.procs[p].seqno)) else None
    case StopBegin(p, _) => Some(OffStopping)
    case StopEnd(p, _) => None
    case StartReceiver(p) => Some(s.procs[p])
    case StartRadio(p) => Some(s.procs[p])
    case StopReceiver(p) => Some(s.procs[p])
    case StopRadio(p) => Some(s.procs[p])
    case _ => None
  }

  function ProcsAfter(s: State, step: Step): (r: map<Pid, Proc>)
    requires Enabled(s, step)
  {
    if Actor(step).None? then s.procs
    else
      var p, next := Actor(step).value, ProcAfter(s, step);
      if next.Some? then s.procs[p := next.value] else s.procs - {p}
  }

  /** The kernel releases the lock of a process that ends. */
  function LockAfter(s: State, step: Step): (r: Option<Pid>)
    requires Enabled(s, step)
  {
    if step.OffStart? || step.TakeLock? then Some(step.p)
    else if Actor(step).Some? && s.lock == Actor(step) && ProcAfter(s, step).None? then None
    else s.lock
  }

  function Do(s: State, step: Step): (r: State)
    requires Enabled(s, step)
  {
    State(
      StoreAfter(s, step),
      if step.ImpCreate? then s.items[step.item := s.disk] else s.items,
      if step.ImpDelete? then s.disk - {DELETE_ORDER[s.procs[step.p].next]} else s.disk,
      LockAfter(s, step),
      step.StartReceiver? || (s.receiver && !step.StopReceiver?),
      step.StartRadio? || (s.radio && !step.StopRadio?),
      ProcsAfter(s, step))
  }

  /** A step moves its own process and no other. */
  lemma OthersStay(s: State, step: Step, q: Pid)
    requires Enabled(s, step) && q in Do(s, step).procs
    ensures if Actor(step) == Some(q) then ProcAfter(s, step) == Some(Do(s, step).procs[q])
            else q in s.procs && s.procs[q] == Do(s, step).procs[q]
  {
  }

  /** A run: `steps[i]` leads from `states[i]` to `states[i + 1]`. */
  ghost predicate Run(states: seq<State>, steps: seq<Step>) {
    && |states| == |steps| + 1
    && forall i {:trigger steps[i]} :: 0 <= i < |steps| ==>
         Enabled(states[i], steps[i]) && states[i + 1] == Do(states[i], steps[i])
  }

  /** No command under way, no window, nothing cached; 1Password mode has its item, and items have ids. */
  predicate AtRest(s: State) {
    && s.procs == map[] && s.lock.None? && s.store.window.Absent? && s.store.key.None?
    && (s.store.source == "1password" ==> s.store.item.item != "")
    && forall i :: i in s.items ==> i.Named()
  }

  /** `next` is what the step makes of `s`. */
  ghost predicate Leads(s: State, step: Step, next: State) { Enabled(s, step) && Do(s, step) == next }

  ghost predicate RunTo(states: seq<State>, steps: seq<Step>, first: State, last: State) {
    Run(states, steps) && states[0] == first && states[|steps|] == last
  }

  /** These steps make a run from `first` to `last`. */
  ghost predicate Reaches(first: State, steps: seq<Step>, last: State) {
    exists states :: RunTo(states, steps, first, last)
  }

  lemma StandsStill(s: State)
    ensures Reaches(s, [], s)
  {
    assert RunTo([s], [], s, s);
  }

  lemma OneMore(states: seq<State>, steps: seq<Step>, step: Step)
    requires Run(states, steps) && Enabled(states[|steps|], step)
    ensures Run(states + [Do(states[|steps|], step)], steps + [step])
  {
    var states', steps' := states + [Do(states[|steps|], step)], steps + [step];
    forall i {:trigger steps'[i]} | 0 <= i < |steps'|
      ensures Enabled(states'[i], steps'[i]) && states'[i + 1] == Do(states'[i], steps'[i])
    {
      if i < |steps| {
        assert steps'[i] == steps[i] && states'[i] == states[i] && states'[i + 1] == states[i + 1];
      }
    }
  }

  /** One more step of a run. */
  lemma Extend(first: State, steps: seq<Step>, s: State, step: Step, next: State)
    requires Reaches(first, steps, s) && Leads(s, step, next)
    ensures Reaches(first, steps + [step], next)
  {
    var states :| RunTo(states, steps, first, s);
    OneMore(states, steps, step);
    assert RunTo(states + [next], steps + [step], first, next);
  }
}
