/** The invariants of every run hold where runs start. */
module FreshStart {
  import opened Protocol
  import opened WindowSafety
  import opened ItemSafety
  import opened RunOrder
  import opened ImportSafety

  /**
   * With no command under way, no window open and nothing cached, every invariant
   * holds.
   */
  lemma InvariantsHoldAtRest(s: State)
    requires AtRest(s)
    ensures Covered(s.store) && Bounded(s, 0) && Sound(s) && HoldersSound(s)
    ensures ImportsSound(s, s.disk) && ItemsNamed(s)
  {
  }
}
