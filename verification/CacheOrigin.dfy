/**
 * Exactly which adoptions can end with another item's payload in the cache,
 * as long as 1Password delivers what it is asked for.
 */
module CacheOrigin {
  import opened CachePayload
  import opened Lifecycle
  import opened Protocol
  import opened Filling
  import opened ItemSafety

  /** The live cache is not of the item the settings name. */
  predicate Foreign(s: State) {
    s.store.Live(s.store.now) && s.store.key.value.held.origin != s.store.item
  }

  predicate NoAdoption(steps: seq<Step>) { forall i :: 0 <= i < |steps| ==> !steps[i].Adopt? }

  /** Some run without any further adoption ends there. */
  ghost predicate CanTurnForeign(s: State) {
    exists steps, t :: NoAdoption(steps) && Reaches(s, steps, t) && Foreign(t)
  }

  /** 1Password has the item, and its files make a payload. */
  predicate Deliverable(s: State, i: ItemRef) {
    && i.Named() && i in s.items && Complete(s.items[i])
    && WellFormed(PayloadOf(FETCH_ID, s.store.now, 1, s.items[i]))
  }

  // ------------------------------------------------------------------ safe

  lemma SoundStaysOwn(s: State)
    requires Sound(s)
    ensures !CanTurnForeign(s)
  {
    forall steps, t | NoAdoption(steps) && Reaches(s, steps, t)
      ensures !Foreign(t)
    {
      var states :| RunTo(states, steps, s, t);
      CacheFromConfiguredItem(states, steps, |steps|);
    }
  }

  // ------------------------------------------------------------------ unsafe: the ways out

  lemma ForeignHere(first: State, steps: seq<Step>, t: State)
    requires NoAdoption(steps) && Reaches(first, steps, t) && Foreign(t)
    ensures CanTurnForeign(first)
  {
  }

  function Without(t: State, p: Pid): (s: State) { t.(procs := t.procs - {p}) }

  lemma PutBack(t: State, p: Pid)
    requires At(t, p)
    ensures Moved(Without(t, p), p, t.procs[p]) == t
  {
    assert (t.procs - {p})[p := t.procs[p]] == t.procs;
  }

  /** A held payload of another item is published. */
  lemma HeldTurnsForeign(first: State, steps: seq<Step>, s: State, r: Pid, f: Fetched)
    requires NoAdoption(steps) && Reaches(first, steps, Moved(s, r, FillHeld(s.store.gen, f)))
    requires !At(s, r) && s.lock.None? && s.store.window.Absent?
    requires f.payload.periodEnds > s.store.now && f.origin != s.store.item
    ensures CanTurnForeign(first)
  {
    Publishes(first, steps, s, r, f, 0);
    ForeignHere(first, steps + [Publish(r, 0, true)], Keyed(s, f, 0));
  }

  /** What a fetch of `i` yields now. */
  function FetchOf(s: State, i: ItemRef): (f: Fetched)
    requires Deliverable(s, i)
  {
    Fetched(PayloadOf(FETCH_ID, s.store.now, 1, s.items[i]), i)
  }

  lemma NamedGoesOn(first: State, steps: seq<Step>, s: State, r: Pid, i: ItemRef) returns (steps': seq<Step>)
    requires NoAdoption(steps) && Reaches(first, steps, Moved(s, r, FillNamed(s.store.gen, i))) && Deliverable(s, i)
    ensures NoAdoption(steps') && Reaches(first, steps', Moved(s, r, FillHeld(s.store.gen, FetchOf(s, i))))
  {
    var fetch := Fetch(r, FETCH_ID, 1);
    Fetches(first, steps, s, r, s.store.gen, i, fetch, FetchOf(s, i));
    steps' := steps + [fetch];
  }

  lemma ReadyGoesOn(first: State, steps: seq<Step>, s: State, r: Pid) returns (steps': seq<Step>)
    requires NoAdoption(steps) && Reaches(first, steps, Moved(s, r, FillReady(s.store.gen)))
    requires Deliverable(s, s.store.item)
    ensures NoAdoption(steps') && Reaches(first, steps', Moved(s, r, FillHeld(s.store.gen, FetchOf(s, s.store.item))))
  {
    ReadsItem(first, steps, s, r, s.store.gen);
    steps' := NamedGoesOn(first, steps + [ReadItem(r)], s, r, s.store.item);
  }

  lemma AskedGoesOn(first: State, steps: seq<Step>, s: State, r: Pid) returns (steps': seq<Step>)
    requires NoAdoption(steps) && Reaches(first, steps, Moved(s, r, FillAsked)) && s.lock.None?
    requires Deliverable(s, s.store.item)
    ensures NoAdoption(steps') && Reaches(first, steps', Moved(s, r, FillHeld(s.store.gen, FetchOf(s, s.store.item))))
  {
    ReadsGen(first, steps, s, r);
    steps' := ReadyGoesOn(first, steps + [ReadGen(r)], s, r);
  }

  /** `q` made the item `a` and is about to save its ids. */
  predicate Made(s: State, q: Pid, a: ItemRef) {
    q in s.procs && s.procs[q].ImpMade? && s.procs[q].gen == s.store.gen && s.procs[q].item == a
  }

  function Saved(s: State, q: Pid, a: ItemRef): (t: State)
    requires Made(s, q, a)
  {
    Moved(s, q, ImpSaved(s.store.gen, s.procs[q].present, a)).(store := s.store.(item := a))
  }

  lemma Saves(first: State, steps: seq<Step>, s: State, q: Pid, a: ItemRef)
    requires Reaches(first, steps, s) && Made(s, q, a) && s.lock.None? && s.store.window.Absent?
    ensures Reaches(first, steps + [ImpSave(q, true)], Saved(s, q, a))
  {
    assert Leads(s, ImpSave(q, true), Saved(s, q, a));
    Extend(first, steps, s, ImpSave(q, true), Saved(s, q, a));
  }

  lemma SavedBeside(s: State, r: Pid, at: Proc, q: Pid, a: ItemRef)
    requires Made(s, q, a) && q != r
    ensures Made(Moved(s, r, at), q, a)
    ensures Saved(Moved(s, r, at), q, a) == Moved(Saved(s, q, a), r, at)
  {
    var x := ImpSaved(s.store.gen, s.procs[q].present, a);
    assert s.procs[r := at][q := x] == s.procs[q := x][r := at];
  }

  /** The ids of another item are saved under a live cache. */
  lemma SaveTurnsForeign(first: State, steps: seq<Step>, t: State, q: Pid, a: ItemRef)
    requires NoAdoption(steps) && Reaches(first, steps, t) && Made(t, q, a) && t.lock.None? && t.store.window.Absent?
    requires t.store.Live(t.store.now) && t.store.key.value.held.origin != a
    ensures CanTurnForeign(first)
  {
    Saves(first, steps, t, q, a);
    ForeignHere(first, steps + [ImpSave(q, true)], Saved(t, q, a));
  }

  /** The ids of another item are saved while a payload of the named one is held. */
  lemma SaveThenPublish(first: State, steps: seq<Step>, s: State, q: Pid, a: ItemRef, r: Pid, f: Fetched)
    requires NoAdoption(steps) && Reaches(first, steps, Moved(s, r, FillHeld(s.store.gen, f)))
    requires Made(s, q, a) && !At(s, r) && s.lock.None? && s.store.window.Absent?
    requires f.payload.periodEnds > s.store.now && f.origin != a
    ensures CanTurnForeign(first)
  {
    var at := FillHeld(s.store.gen, f);
    SavedBeside(s, r, at, q, a);
    Saves(first, steps, Moved(s, r, at), q, a);
    HeldTurnsForeign(first, steps + [ImpSave(q, true)], Saved(s, q, a), r, f);
  }

  /** A fetch that could still be published, of the named item or of none yet. */
  lemma FillThenSave(first: State, steps: seq<Step>, t: State, q: Pid, a: ItemRef, r: Pid)
    requires NoAdoption(steps) && Reaches(first, steps, t) && Made(t, q, a) && a != t.store.item
    requires t.lock.None? && t.store.window.Absent? && Deliverable(t, t.store.item)
    requires At(t, r) && CurrentFill(t.store, t.procs[r])
    requires t.procs[r].FillNamed? || t.procs[r].FillHeld? ==> ItemOf(t.procs[r]) == t.store.item
    ensures CanTurnForeign(first)
  {
    var s := Without(t, r);
    PutBack(t, r);
    var steps', f := steps, FetchOf(s, s.store.item);
    match t.procs[r] {
      case FillAsked => steps' := AskedGoesOn(first, steps, s, r);
      case FillReady(_) => steps' := ReadyGoesOn(first, steps, s, r);
      case FillNamed(_, _) => steps' := NamedGoesOn(first, steps, s, r, s.store.item);
      case FillHeld(_, held) => f := held;
    }
    SaveThenPublish(first, steps', s, q, a, r, f);
  }

  // ------------------------------------------------------------------ unsafe: the cases

  lemma OutstandingTurnsForeign(t: State, q: Pid)
    requires At(t, q) && (t.procs[q].FillNamed? || t.procs[q].FillHeld?) && CurrentFill(t.store, t.procs[q])
    requires ItemOf(t.procs[q]) != t.store.item && t.lock.None? && t.store.window.Absent?
    requires t.procs[q].FillNamed? ==> Deliverable(t, t.procs[q].item)
    ensures CanTurnForeign(t)
  {
    var s := Without(t, q);
    StandsStill(t);
    PutBack(t, q);
    match t.procs[q] {
      case FillNamed(_, i) =>
        var steps := NamedGoesOn(t, [], s, q, i);
        HeldTurnsForeign(t, steps, s, q, FetchOf(s, i));
      case FillHeld(_, f) =>
        HeldTurnsForeign(t, [], s, q, f);
    }
  }

  lemma {:induction false} Bound(items: set<ItemRef>) returns (n: nat)
    ensures forall i :: i in items ==> |i.item| < n
  {
    if items == {} {
      return 0;
    }
    var i :| i in items;
    var m := Bound(items - {i});
    n := if m > |i.item| then m else |i.item| + 1;
  }

  function Xs(n: nat): (s: string)
    ensures |s| == n
  {
    if n == 0 then "" else Xs(n - 1) + ['x']
  }

  /** An item that 1Password does not have yet. */
  lemma NewItem(s: State) returns (a: ItemRef)
    ensures a.Named() && a !in s.items && a != s.store.item
  {
    var n := Bound(s.items.Keys + {s.store.item});
    a := ItemRef("", "v", Xs(n + 1));
  }

  lemma NewPid(procs: set<Pid>) returns (p: Pid)
    ensures forall q :: q in procs ==> q < p
  {
    if procs == {} {
      return 0;
    }
    var q :| q in procs;
    var m := NewPid(procs - {q});
    assert forall x :: x in procs ==> x == q || x in procs - {q};
    p := if m > q then m else q + 1;
  }

  /** An import about to save another item, which it makes first if it has not yet. */
  lemma MakesItem(t: State, q: Pid) returns (steps: seq<Step>, u: State, a: ItemRef)
    requires Importing(t, q, t.store.item)
    ensures NoAdoption(steps) && Reaches(t, steps, u) && Made(u, q, a) && a != t.store.item
    ensures u.store == t.store && u.lock == t.lock
    ensures forall i :: i in t.items ==> i in u.items && u.items[i] == t.items[i]
    ensures forall p :: p != q ==> (p in u.procs <==> p in t.procs) && (p in u.procs ==> u.procs[p] == t.procs[p])
  {
    StandsStill(t);
    if t.procs[q].ImpMade? {
      steps, u, a := [], t, t.procs[q].item;
    } else {
      a := NewItem(t);
      u := Moved(t, q, ImpMade(t.store.gen, t.procs[q].present, a)).(items := t.items[a := t.disk]);
      assert Leads(t, ImpCreate(q, a), u);
      Extend(t, [], t, ImpCreate(q, a), u);
      steps := [] + [ImpCreate(q, a)];
    }
  }

  lemma AsksAfresh(t: State, steps: seq<Step>, u: State) returns (r: Pid)
    requires NoAdoption(steps) && Reaches(t, steps, u) && u.store.source == "1password"
    ensures !At(u, r) && NoAdoption(steps + [AskFill(r)])
    ensures Reaches(t, steps + [AskFill(r)], Moved(u, r, FillAsked))
  {
    r := NewPid(u.procs.Keys);
    Asks(t, steps, u, r);
  }

  /** With an import about to save another item, a cache or a fetch of the named one is enough. */
  lemma ImportingTurnsForeign(t: State, q: Pid)
    requires Importing(t, q, t.store.item) && !Quiet(t)
    requires t.lock.None? && t.store.window.Absent? && Deliverable(t, t.store.item)
    requires t.store.Live(t.store.now) ==> t.store.key.value.held.origin == t.store.item
    requires forall r :: Outstanding(t, r) ==> ItemOf(t.procs[r]) == t.store.item
    ensures CanTurnForeign(t)
  {
    var steps, u, a := MakesItem(t, q);
    if t.store.Live(t.store.now) {
      SaveTurnsForeign(t, steps, u, q, a);
    } else if t.store.source == "1password" {
      var r := AsksAfresh(t, steps, u);
      FillThenSave(t, steps + [AskFill(r)], Moved(u, r, FillAsked), q, a, r);
    } else {
      var r :| r in t.procs && CurrentFill(t.store, t.procs[r]);
      assert r != q && (t.procs[r].FillNamed? || t.procs[r].FillHeld? ==> Outstanding(t, r));
      FillThenSave(t, steps, u, q, a, r);
    }
  }

  // ------------------------------------------------------------------ exactly

  /** What 1Password is asked for after an adoption can be had. */
  ghost predicate Delivers(s: State, item: ItemRef) {
    && Deliverable(s, item)
    && forall q :: Outstanding(s, q) && s.procs[q].FillNamed? ==> Deliverable(s, s.procs[q].item)
  }

  lemma UnsafeImport(s: State, step: Step, q: Pid, t: State)
    requires Enabled(s, step) && Sound(s) && step.Adopt? && t == Do(s, step)
    requires Writes(s, step) && step.writes < 3 && !LeavesQuiet(s, step) && Importing(s, q, s.procs[step.p].item)
    requires t.store.Live(t.store.now) ==> t.store.key.value.held.origin == t.store.item
    requires forall r :: Outstanding(s, r) ==> ItemOf(s.procs[r]) == s.procs[step.p].item
    requires Deliverable(s, s.procs[step.p].item)
    ensures CanTurnForeign(t)
  {
    AdoptMoves(s, step, t);
    QuietExactly(s, step, t);
    assert forall r :: Outstanding(t, r) ==> Outstanding(s, r);
    ImportingTurnsForeign(t, q);
  }

  lemma UnsafeTurnsForeign(s: State, step: Step, t: State)
    requires Enabled(s, step) && Sound(s) && step.Adopt? && !AdoptSafe(s, step) && t == Do(s, step)
    requires Delivers(s, s.procs[step.p].item)
    ensures CanTurnForeign(t)
  {
    var item := s.procs[step.p].item;
    AdoptMoves(s, step, t);
    StandsStill(t);
    if !(step.how.Cleared? || !s.store.Live(s.store.now) || s.store.key.value.held.origin == item) {
      ForeignHere(t, [], t);
    } else if q :| Outstanding(s, q) && ItemOf(s.procs[q]) != item {
      OutstandingTurnsForeign(t, q);
    } else {
      var q :| Importing(s, q, item);
      UnsafeImport(s, step, q, t);
    }
  }

  /**
   * After an adoption, with 1Password delivering, some run without another adoption
   * caches a payload that is not of the item the settings name, if and only if the
   * adoption was not safe.
   */
  lemma AdoptionTurnsForeignExactly(s: State, step: Step)
    requires Enabled(s, step) && Sound(s) && step.Adopt? && Delivers(s, s.procs[step.p].item)
    ensures CanTurnForeign(Do(s, step)) <==> !AdoptSafe(s, step)
  {
    SoundStep(s, step);
    if AdoptSafe(s, step) {
      SoundStaysOwn(Do(s, step));
    } else {
      UnsafeTurnsForeign(s, step, Do(s, step));
    }
  }
}
