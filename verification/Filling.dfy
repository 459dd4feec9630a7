/** The steps by which a process fills the cache, as parts of longer runs. */
module Filling {
  import opened Basics
  import opened CachePayload
  import opened Lifecycle
  import opened Protocol

  const FETCH_ID := "0123456789abcdef0123456789abcdef"

  /** `s` with one process moved, or started. */
  function Moved(s: State, p: Pid, at: Proc): (t: State) { s.(procs := s.procs[p := at]) }

  lemma MovesOn(s: State, p: Pid, a: Proc, b: Proc)
    ensures Moved(Moved(s, p, a), p, b) == Moved(s, p, b)
  {
    assert s.procs[p := a][p := b] == s.procs[p := b];
  }

  // ------------------------------------------------------------------ filling the cache, step by step

  lemma Asks(first: State, steps: seq<Step>, s: State, p: Pid)
    requires Reaches(first, steps, s) && !At(s, p) && s.store.source == "1password"
    ensures Reaches(first, steps + [AskFill(p)], Moved(s, p, FillAsked))
  {
    assert Leads(s, AskFill(p), Moved(s, p, FillAsked));
    Extend(first, steps, s, AskFill(p), Moved(s, p, FillAsked));
  }

  lemma ReadsGen(first: State, steps: seq<Step>, s: State, p: Pid)
    requires Reaches(first, steps, Moved(s, p, FillAsked)) && s.lock.None?
    ensures Reaches(first, steps + [ReadGen(p)], Moved(s, p, FillReady(s.store.gen)))
  {
    MovesOn(s, p, FillAsked, FillReady(s.store.gen));
    assert Leads(Moved(s, p, FillAsked), ReadGen(p), Moved(s, p, FillReady(s.store.gen)));
    Extend(first, steps, Moved(s, p, FillAsked), ReadGen(p), Moved(s, p, FillReady(s.store.gen)));
  }

  lemma ReadsItem(first: State, steps: seq<Step>, s: State, p: Pid, g: nat)
    requires Reaches(first, steps, Moved(s, p, FillReady(g))) && s.store.item.Named()
    ensures Reaches(first, steps + [ReadItem(p)], Moved(s, p, FillNamed(g, s.store.item)))
  {
    MovesOn(s, p, FillReady(g), FillNamed(g, s.store.item));
    assert Leads(Moved(s, p, FillReady(g)), ReadItem(p), Moved(s, p, FillNamed(g, s.store.item)));
    Extend(first, steps, Moved(s, p, FillReady(g)), ReadItem(p), Moved(s, p, FillNamed(g, s.store.item)));
  }

  lemma Fetches(first: State, steps: seq<Step>, s: State, p: Pid, g: nat, i: ItemRef, step: Step, f: Fetched)
    requires Reaches(first, steps, Moved(s, p, FillNamed(g, i))) && step.Fetch? && step.p == p
    requires i in s.items && Complete(s.items[i]) && 1 <= step.hours <= 24
    requires f == Fetched(PayloadOf(step.fetchId, s.store.now, step.hours, s.items[i]), i) && WellFormed(f.payload)
    ensures Reaches(first, steps + [step], Moved(s, p, FillHeld(g, f)))
  {
    MovesOn(s, p, FillNamed(g, i), FillHeld(g, f));
    assert Leads(Moved(s, p, FillNamed(g, i)), step, Moved(s, p, FillHeld(g, f)));
    Extend(first, steps, Moved(s, p, FillNamed(g, i)), step, Moved(s, p, FillHeld(g, f)));
  }

  function FillSteps(p: Pid, fetch: Step): (steps: seq<Step>) {
    [AskFill(p)] + [ReadGen(p)] + [ReadItem(p)] + [fetch]
  }

  /** Up to the point where the payload is held. */
  lemma Holds(first: State, steps: seq<Step>, s: State, p: Pid, fetch: Step, f: Fetched)
    requires Reaches(first, steps, s) && fetch.Fetch? && fetch.p == p
    requires !At(s, p) && s.lock.None? && s.store.source == "1password"
    requires s.store.item.Named() && s.store.item in s.items && Complete(s.items[s.store.item])
    requires 1 <= fetch.hours <= 24 && WellFormed(f.payload)
    requires f == Fetched(PayloadOf(fetch.fetchId, s.store.now, fetch.hours, s.items[s.store.item]), s.store.item)
    ensures Reaches(first, steps + FillSteps(p, fetch), Moved(s, p, FillHeld(s.store.gen, f)))
  {
    var steps1 := steps + [AskFill(p)];
    var steps2 := steps1 + [ReadGen(p)];
    var steps3 := steps2 + [ReadItem(p)];
    Asks(first, steps, s, p);
    ReadsGen(first, steps1, s, p);
    ReadsItem(first, steps2, s, p, s.store.gen);
    Fetches(first, steps3, s, p, s.store.gen, s.store.item, fetch, f);
    assert steps3 + [fetch] == steps + FillSteps(p, fetch);
  }

  function Keyed(s: State, f: Fetched, lag: nat): (t: State) {
    s.(store := s.store.(now := s.store.now + lag, key := Some(CacheKey(f, f.payload.periodEnds + lag))))
  }

  lemma Publishes(first: State, steps: seq<Step>, s: State, p: Pid, f: Fetched, lag: nat)
    requires Reaches(first, steps, Moved(s, p, FillHeld(s.store.gen, f))) && s.lock.None? && !At(s, p)
    requires s.store.window.Absent? && f.payload.periodEnds > s.store.now
    ensures Reaches(first, steps + [Publish(p, lag, true)], Keyed(s, f, lag))
  {
    var t := Moved(s, p, FillHeld(s.store.gen, f));
    assert t.procs - {p} == s.procs;
    assert Leads(t, Publish(p, lag, true), Keyed(s, f, lag));
    Extend(first, steps, t, Publish(p, lag, true), Keyed(s, f, lag));
  }
}
