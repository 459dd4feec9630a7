/**
 * Runs from rest that show where the promises of the other modules end, each of
 * steps the commands take on an identity they accept.
 */
module Witnesses {
  import opened Basics
  import opened CachePayload
  import opened Selection
  import opened Lifecycle
  import opened Protocol
  import opened Filling
  import opened WindowSafety

  const ITEM := ItemRef("account", "vault", "item")

  const APPLE: Files := map[Certificate := "c", PrivateKey := "k", Record := "r"]

  /** Nothing running, the mode 1Password, and its item in place. */
  function Rest(items: map<ItemRef, Files>): (s: State) {
    State(Store(0, 0, 0, Absent, None, "1password", ITEM, None), items, map[], None, false, false, map[])
  }

  lemma GoodPayload(t0: nat, hours: int)
    requires 1 <= hours <= 24 && t0 <= 1000000
    ensures WellFormed(PayloadOf(FETCH_ID, t0, hours, APPLE))
  {
  }

  // ------------------------------------------------------------------ filling the cache

  /** A cache filled from rest, at time zero. */
  lemma Fills(hours: int, lag: nat, f: Fetched)
    requires 1 <= hours <= 24 && f == Fetched(PayloadOf(FETCH_ID, 0, hours, APPLE), ITEM)
    ensures var s := Rest(map[ITEM := APPLE]);
            && AtRest(s)
            && Reaches(s, FillSteps(1, Fetch(1, FETCH_ID, hours)) + [Publish(1, lag, true)], Keyed(s, f, lag))
  {
    var s := Rest(map[ITEM := APPLE]);
    var steps := FillSteps(1, Fetch(1, FETCH_ID, hours));
    GoodPayload(0, hours);
    StandsStill(s);
    Holds(s, [], s, 1, Fetch(1, FETCH_ID, hours), f);
    assert [] + steps == steps;
    Publishes(s, steps, s, 1, f, lag);
  }

  // ------------------------------------------------------------------ how far a key outlives its identity

  predicate LagsWithin(steps: seq<Step>, slack: nat) { forall i :: 0 <= i < |steps| ==> LagOf(steps[i]) <= slack }

  predicate DiesWithin(s: State, m: int) {
    s.store.key.Some? ==> s.store.key.value.deadline <= s.store.key.value.held.payload.hardExpiry + m
  }

  /**
   * Wherever a run from rest leads whose timeout calls take at most `slack`, the key
   * dies within `m` of its hard expiry.
   */
  ghost predicate AlwaysWithin(slack: nat, m: int) {
    forall s, steps, t :: AtRest(s) && LagsWithin(steps, slack) && Reaches(s, steps, t) ==> DiesWithin(t, m)
  }

  /** A payload cached for its whole lifetime by a slow timeout call outlives it by as much. */
  lemma SlowPublication(slack: nat) returns (s: State, steps: seq<Step>, t: State)
    ensures AtRest(s) && LagsWithin(steps, slack) && Reaches(s, steps, t)
    ensures t.store.key.Some? && t.store.key.value.deadline == t.store.key.value.held.payload.hardExpiry + slack
  {
    var f := Fetched(PayloadOf(FETCH_ID, 0, 24, APPLE), ITEM);
    s := Rest(map[ITEM := APPLE]);
    steps := FillSteps(1, Fetch(1, FETCH_ID, 24)) + [Publish(1, slack, true)];
    t := Keyed(s, f, slack);
    Fills(24, slack, f);
  }

  lemma WithinSlack(s: State, steps: seq<Step>, t: State, slack: nat)
    requires AtRest(s) && LagsWithin(steps, slack) && Reaches(s, steps, t)
    ensures DiesWithin(t, slack)
  {
    var states :| RunTo(states, steps, s, t);
    KeyLifetime(states, steps, |steps|, slack);
  }

  /** The bound is exact: the key always dies within `m` of its hard expiry if and only if `m` is at least the slack. */
  lemma KeyLifetimeExactly(slack: nat, m: int)
    ensures AlwaysWithin(slack, m) <==> m >= slack
  {
    var s, steps, t := SlowPublication(slack);
    assert DiesWithin(t, m) ==> m >= slack;
    if m >= slack {
      forall s, steps, t | AtRest(s) && LagsWithin(steps, slack) && Reaches(s, steps, t)
        ensures DiesWithin(t, m)
      {
        WithinSlack(s, steps, t, slack);
      }
    }
  }

  // ------------------------------------------------------------------ opening a window

  const IN_ORDER := Retiming(true, Cleared)

  lemma Ticks(first: State, steps: seq<Step>, s: State, to_: int)
    requires Reaches(first, steps, s) && s.store.now <= to_
    ensures Reaches(first, steps + [Tick(to_)], s.(store := s.store.(now := to_)))
  {
    assert Leads(s, Tick(to_), s.(store := s.store.(now := to_)));
    Extend(first, steps, s, Tick(to_), s.(store := s.store.(now := to_)));
  }

  lemma Begins(first: State, steps: seq<Step>, s: State, p: Pid)
    requires Reaches(first, steps, s) && !At(s, p) && s.lock.None?
    ensures Reaches(first, steps + [Begin(p)], Moved(s, p, OnBegun(s.store.seqno)))
  {
    assert Leads(s, Begin(p), Moved(s, p, OnBegun(s.store.seqno)));
    Extend(first, steps, s, Begin(p), Moved(s, p, OnBegun(s.store.seqno)));
  }

  lemma Locks(first: State, steps: seq<Step>, s: State, p: Pid, n: nat)
    requires Reaches(first, steps, Moved(s, p, OnBegun(n))) && s.lock.None?
    ensures Reaches(first, steps + [TakeLock(p)], Moved(s, p, OnLocked(n)).(lock := Some(p)))
  {
    MovesOn(s, p, OnBegun(n), OnLocked(n));
    assert Leads(Moved(s, p, OnBegun(n)), TakeLock(p), Moved(s, p, OnLocked(n)).(lock := Some(p)));
    Extend(first, steps, Moved(s, p, OnBegun(n)), TakeLock(p), Moved(s, p, OnLocked(n)).(lock := Some(p)));
  }

  lemma Opens(first: State, steps: seq<Step>, s: State, p: Pid, o: Opening)
    requires Reaches(first, steps, Moved(s, p, OnLocked(s.store.seqno)).(lock := Some(p)))
    requires WindowIn(s.store, s.store.seqno, o).1.Opened?
    ensures Reaches(first, steps + [OpenWindow(p, o)],
                    Moved(s, p, OnUp(s.store.seqno)).(lock := Some(p), store := WindowIn(s.store, s.store.seqno, o).0))
  {
    var n := s.store.seqno;
    MovesOn(s, p, OnLocked(n), OnUp(n));
    var before := Moved(s, p, OnLocked(n)).(lock := Some(p));
    var after := Moved(s, p, OnUp(n)).(lock := Some(p), store := WindowIn(s.store, n, o).0);
    assert Leads(before, OpenWindow(p, o), after);
    Extend(first, steps, before, OpenWindow(p, o), after);
  }

  /** An `on` from its `begin` to its window. */
  lemma TurnsOn(first: State, steps: seq<Step>, s: State, p: Pid, o: Opening)
    requires Reaches(first, steps, s) && !At(s, p) && s.lock.None? && WindowIn(s.store, s.store.seqno, o).1.Opened?
    ensures Reaches(first, steps + ([Begin(p)] + [TakeLock(p)] + [OpenWindow(p, o)]),
                    Moved(s, p, OnUp(s.store.seqno)).(lock := Some(p), store := WindowIn(s.store, s.store.seqno, o).0))
  {
    var steps1 := steps + [Begin(p)];
    var steps2 := steps1 + [TakeLock(p)];
    Begins(first, steps, s, p);
    Locks(first, steps1, s, p, s.store.seqno);
    Opens(first, steps2, s, p, o);
    assert steps2 + [OpenWindow(p, o)] == steps + ([Begin(p)] + [TakeLock(p)] + [OpenWindow(p, o)]);
  }

  /** The key dies while the window is being opened on it: the window opens, and its cache is gone. */
  lemma SlowOpeningLosesTheCache() returns (s: State, steps: seq<Step>, t: State)
    ensures AtRest(s) && Reaches(s, steps, t)
    ensures t.store.window.Parsed? && t.store.window.window.OnePassword?
    ensures t.store.now < t.store.window.window.hardExpiry && t.store.CacheSeen() == CacheAbsent
  {
    var f := Fetched(PayloadOf(FETCH_ID, 0, 1, APPLE), ITEM);
    s := Rest(map[ITEM := APPLE]);
    var filled := FillSteps(1, Fetch(1, FETCH_ID, 1)) + [Publish(1, 0, true)];
    Fills(1, 0, f);
    var late := Keyed(s, f, 0).(store := Keyed(s, f, 0).store.(now := 3599));
    Ticks(s, filled, Keyed(s, f, 0), 3599);
    var o := Opening(true, 1, 0, IN_ORDER, false, true);
    TurnsOn(s, filled + [Tick(3599)], late, 2, o);
    steps := filled + [Tick(3599)] + ([Begin(2)] + [TakeLock(2)] + [OpenWindow(2, o)]);
    t := Moved(late, 2, OnUp(0)).(lock := Some(2), store := WindowIn(late.store, 0, o).0);
  }

  // ------------------------------------------------------------------ turning off

  lemma StopsBegin(first: State, steps: seq<Step>, s: State, p: Pid, bumped: bool)
    requires Reaches(first, steps, s) && !At(s, p) && s.lock.None?
    ensures Reaches(first, steps + [OffStart(p)] + [StopBegin(p, bumped)],
                    Moved(s, p, OffStopping).(lock := Some(p),
                                              store := if bumped then StopBeginIn(s.store) else s.store))
  {
    var s1 := Moved(s, p, OffLocked).(lock := Some(p));
    var s2 := Moved(s, p, OffStopping).(lock := Some(p), store := if bumped then StopBeginIn(s.store) else s.store);
    assert Leads(s, OffStart(p), s1);
    Extend(first, steps, s, OffStart(p), s1);
    MovesOn(s, p, OffLocked, OffStopping);
    assert Leads(s1, StopBegin(p, bumped), s2);
    Extend(first, steps + [OffStart(p)], s1, StopBegin(p, bumped), s2);
  }

  lemma StopsEnd(first: State, steps: seq<Step>, s: State, p: Pid, st: Store, c: Closing)
    requires Reaches(first, steps, Moved(s, p, OffStopping).(lock := Some(p), store := st)) && !At(s, p) && s.lock.None?
    ensures Reaches(first, steps + [StopEnd(p, c)], s.(store := StopEndIn(st, c)))
  {
    var before := Moved(s, p, OffStopping).(lock := Some(p), store := st);
    var after := s.(store := StopEndIn(st, c));
    assert before.procs - {p} == s.procs;
    assert Leads(before, StopEnd(p, c), after);
    Extend(first, steps, before, StopEnd(p, c), after);
  }

  function Off(p: Pid, bumped: bool, c: Closing): (steps: seq<Step>) {
    [OffStart(p)] + [StopBegin(p, bumped)] + [StopEnd(p, c)]
  }

  /** A whole `off`; `bumped` says whether its `stop-begin` wrote the sequence number. */
  lemma TurnsOff(first: State, steps: seq<Step>, s: State, p: Pid, bumped: bool, c: Closing)
    requires Reaches(first, steps, s) && !At(s, p) && s.lock.None?
    ensures Reaches(first, steps + Off(p, bumped, c),
                    s.(store := StopEndIn(if bumped then StopBeginIn(s.store) else s.store, c)))
  {
    StopsBegin(first, steps, s, p, bumped);
    StopsEnd(first, steps + [OffStart(p)] + [StopBegin(p, bumped)], s, p,
             if bumped then StopBeginIn(s.store) else s.store, c);
    assert steps + [OffStart(p)] + [StopBegin(p, bumped)] + [StopEnd(p, c)] == steps + Off(p, bumped, c);
  }

  lemma Ends(first: State, steps: seq<Step>, s: State, p: Pid, at: Proc)
    requires Reaches(first, steps, Moved(s, p, at).(lock := Some(p))) && !At(s, p) && s.lock.None?
    ensures Reaches(first, steps + [Stop(p)], s)
  {
    var before := Moved(s, p, at).(lock := Some(p));
    assert before.procs - {p} == s.procs;
    assert Leads(before, Stop(p), s);
    Extend(first, steps, before, Stop(p), s);
  }

  /** A window opened on a cache of one hour, up to after that hour. */
  lemma OpenPastThePeriod(s: State, f: Fetched, o: Opening, keyed: State, opened_: Store) returns (steps: seq<Step>)
    requires s == Rest(map[ITEM := APPLE]) && f == Fetched(PayloadOf(FETCH_ID, 0, 1, APPLE), ITEM)
    requires keyed == Keyed(s, f, 0)
    requires WindowIn(keyed.store, 0, o).1.Opened? && opened_ == WindowIn(keyed.store, 0, o).0 && opened_.now <= 4000
    ensures Reaches(s, steps, keyed.(store := opened_.(now := 4000)))
  {
    var on := [Begin(2)] + [TakeLock(2)] + [OpenWindow(2, o)];
    var up := keyed.(store := opened_);
    steps := FillSteps(1, Fetch(1, FETCH_ID, 1)) + [Publish(1, 0, true)];
    Fills(1, 0, f);
    TurnsOn(s, steps, keyed, 2, o);
    assert Moved(up, 2, OnUp(0)).(lock := Some(2)) == Moved(keyed, 2, OnUp(0)).(lock := Some(2), store := opened_);
    Ends(s, steps + on, up, 2, OnUp(0));
    Ticks(s, steps + on + [Stop(2)], up, 4000);
    steps := steps + on + [Stop(2)] + [Tick(4000)];
  }

  /** Opening at once lets the key live to the hard expiry. */
  lemma OpenedStore(st: Store, f: Fetched, o: Opening)
    requires st == Rest(map[]).store.(key := Some(CacheKey(f, f.payload.periodEnds)))
    requires 0 < f.payload.periodEnds < f.payload.hardExpiry && o == Opening(true, 0, 0, IN_ORDER, false, true)
    ensures WindowIn(st, 0, o).1.Opened?
    ensures WindowIn(st, 0, o).0 ==
            st.(window := Parsed(OnePassword(f.payload.fetchId, f.payload.hardExpiry)), shown := Some(f),
                key := Some(CacheKey(f, f.payload.hardExpiry)))
  {
  }

  /** Past the period, a clearing that clears nothing leaves the key as it was. */
  lemma ClosedStore(st: Store, f: Fetched, c: Closing)
    requires st.key == Some(CacheKey(f, f.payload.hardExpiry))
    requires f.payload.periodEnds < st.now < f.payload.hardExpiry
    requires c == Closing(true, true, 0, 0, Retiming(true, Kept))
    ensures StopEndIn(st, c) == st.(window := Absent, shown := None)
  {
  }

  /** `off` after the fetch period reports the key cleared, and the key lives on to its hard expiry. */
  lemma ClearedKeyLivesOn() returns (s: State, steps: seq<Step>, t: State)
    ensures AtRest(s) && Reaches(s, steps, t)
    ensures t.store.window.Absent? && t.store.CurrentCache().Some?
    ensures t.store.key.value.held.payload.periodEnds < t.store.now < t.store.key.value.deadline
    ensures t.store.key.value.deadline == t.store.key.value.held.payload.hardExpiry
  {
    var o := Opening(true, 0, 0, IN_ORDER, false, true);
    var c := Closing(true, true, 0, 0, Retiming(true, Kept));
    var f := Fetched(PayloadOf(FETCH_ID, 0, 1, APPLE), ITEM);
    s := Rest(map[ITEM := APPLE]);
    var keyed := Keyed(s, f, 0);
    OpenedStore(keyed.store, f, o);
    var late := keyed.(store := WindowIn(keyed.store, 0, o).0.(now := 4000));
    steps := OpenPastThePeriod(s, f, o, keyed, WindowIn(keyed.store, 0, o).0);
    TurnsOff(s, steps, late, 3, true, c);
    ClosedStore(StopBeginIn(late.store), f, c);
    steps := steps + Off(3, true, c);
    t := late.(store := StopBeginIn(late.store).(window := Absent, shown := None));
  }

  // ------------------------------------------------------------------ a stop that is not written

  /** The steps of an `on` with a whole `off` between its `begin` and its window. */
  function OffMeanwhile(bumped: bool, c: Closing, o: Opening): (steps: seq<Step>) {
    [Begin(1)] + Off(2, bumped, c) + [TakeLock(1)] + [OpenWindow(1, o)]
  }

  lemma OffAfterBegin(s: State, c: Closing)
    requires s == Rest(map[ITEM := APPLE])
    ensures Reaches(s, [Begin(1)] + Off(2, false, c), Moved(s, 1, OnBegun(0)))
  {
    StandsStill(s);
    Begins(s, [], s, 1);
    assert [] + [Begin(1)] == [Begin(1)];
    TurnsOff(s, [Begin(1)], Moved(s, 1, OnBegun(0)), 2, false, c);
    assert StopEndIn(s.store, c) == s.store;
  }

  /** `off` ran between an `on`'s `begin` and its window, but could not write the sequence number: the window opens. */
  lemma UnwrittenStopIsMissed(c: Closing) returns (s: State, o: Opening, t: State)
    ensures AtRest(s) && Reaches(s, OffMeanwhile(false, c, o), t)
    ensures t.store.window.Parsed? && At(t, 1) && t.procs[1].OnUp? && t.lock == Some(1)
  {
    o := Opening(true, 0, 0, IN_ORDER, false, true);
    s := Rest(map[ITEM := APPLE]);
    OffAfterBegin(s, c);
    var steps := [Begin(1)] + Off(2, false, c);
    Locks(s, steps, s, 1, 0);
    Opens(s, steps + [TakeLock(1)], s, 1, o);
    t := Moved(s, 1, OnUp(0)).(lock := Some(1), store := WindowIn(s.store, 0, o).0);
  }

  // ------------------------------------------------------------------ an adoption cut short

  const OTHER := ItemRef("account", "vault", "other")

  const OTHERS: Files := map[Certificate := "d", PrivateKey := "l", Record := "s"]

  lemma UsesAnother(first: State, steps: seq<Step>, s: State, p: Pid)
    requires Reaches(first, steps, s) && !At(s, p) && s.lock.None? && s.store.window.Absent?
    ensures Reaches(first, steps + [UseStart(p)],
                    Moved(s, p, UseStarted(s.store.gen + 1)).(store := s.store.(gen := s.store.gen + 1)))
  {
    var after := Moved(s, p, UseStarted(s.store.gen + 1)).(store := s.store.(gen := s.store.gen + 1));
    assert Leads(s, UseStart(p), after);
    Extend(first, steps, s, UseStart(p), after);
  }

  lemma ReadsAnother(first: State, steps: seq<Step>, s: State, p: Pid, g: nat, i: ItemRef)
    requires Reaches(first, steps, Moved(s, p, UseStarted(g))) && i in s.items && Complete(s.items[i])
    ensures Reaches(first, steps + [UseRead(p, i)], Moved(s, p, UseVerified(g, i)))
  {
    MovesOn(s, p, UseStarted(g), UseVerified(g, i));
    assert Leads(Moved(s, p, UseStarted(g)), UseRead(p, i), Moved(s, p, UseVerified(g, i)));
    Extend(first, steps, Moved(s, p, UseStarted(g)), UseRead(p, i), Moved(s, p, UseVerified(g, i)));
  }

  /** `adopt` saves the ids and then fails to write the mode. */
  lemma HalfAdopts(first: State, steps: seq<Step>, s: State, p: Pid, i: ItemRef)
    requires Reaches(first, steps, s) && At(s, p) && s.procs[p] == UseVerified(s.store.gen, i)
    requires s.lock.None? && s.store.window.Absent? && s.store.key.None?
    ensures Reaches(first, steps + [Adopt(p, Cleared, 1)], s.(procs := s.procs - {p}, store := s.store.(item := i)))
  {
    var after := s.(procs := s.procs - {p}, store := s.store.(item := i));
    assert Leads(s, Adopt(p, Cleared, 1), after);
    Extend(first, steps, s, Adopt(p, Cleared, 1), after);
  }

  /** A settings write that fails after the ids are saved lets a fetch of the old item be cached. */
  lemma HalfAdoptionPublishesTheOldItem() returns (s: State, steps: seq<Step>, t: State)
    ensures AtRest(s) && Reaches(s, steps, t)
    ensures t.store.Live(t.store.now) && t.store.key.value.held.origin != t.store.item && t.store.item in t.items
    ensures Complete(t.items[t.store.item])
    ensures t.store.key.value.held.payload.certificate != t.items[t.store.item][Certificate]
  {
    s := Rest(map[ITEM := APPLE, OTHER := OTHERS]);
    var fetch := Fetch(1, FETCH_ID, 1);
    var f := Fetched(PayloadOf(FETCH_ID, 0, 1, APPLE), ITEM);
    GoodPayload(0, 1);
    StandsStill(s);
    UsesAnother(s, [], s, 2);
    var used := s.(store := s.store.(gen := 1));
    assert Moved(used, 2, UseStarted(1)) == Moved(s, 2, UseStarted(1)).(store := used.store);
    ReadsAnother(s, [] + [UseStart(2)], used, 2, 1, OTHER);
    var steps1 := [] + [UseStart(2)] + [UseRead(2, OTHER)];
    Holds(s, steps1, Moved(used, 2, UseVerified(1, OTHER)), 1, fetch, f);
    var half := used.(store := used.store.(item := OTHER));
    var held := Moved(Moved(used, 2, UseVerified(1, OTHER)), 1, FillHeld(1, f));
    HalfAdopts(s, steps1 + FillSteps(1, fetch), held, 2, OTHER);
    assert Moved(half, 1, FillHeld(1, f)).procs == map[2 := UseVerified(1, OTHER), 1 := FillHeld(1, f)] - {2};
    Publishes(s, steps1 + FillSteps(1, fetch) + [Adopt(2, Cleared, 1)], half, 1, f, 0);
    steps := steps1 + FillSteps(1, fetch) + [Adopt(2, Cleared, 1)] + [Publish(1, 0, true)];
    t := Keyed(half, f, 0);
  }
}
