/**
 * The self-signed pair: created by linking, so that no file is ever replaced,
 * and a legacy pair moved by linking then unlinking. A directory maps names to
 * inodes; a competing creator may act between this program's own steps.
 */
module SelfSigned {
  import opened Basics

  datatype Name = AppleCert | AppleKey | AppleRecord | SelfCert | SelfKey

  type Inode = nat
  type Dir = map<Name, Inode>

  /** What someone else may do meanwhile: anything, with files of their own. */
  ghost predicate Competes(before: Dir, after: Dir, ours: set<Inode>) {
    forall n :: n in after ==> (n in before && before[n] == after[n]) || after[n] !in ours
  }

  /** This program's step leaves every file it did not make in place. */
  ghost predicate Harmless(before: Dir, after: Dir, ours: set<Inode>) {
    forall n :: n in before && before[n] !in ours ==> n in after && after[n] == before[n]
  }

  datatype Outcome = Made | AlreadyThere | HalfPair | Missing | OpensslFailed | LinkFailed

  /** The pair as it stands: `pair_lexists`. */
  function PairOutcome(d: Dir): (o: Outcome) {
    if SelfCert in d && SelfKey in d then AlreadyThere
    else if SelfCert !in d && SelfKey !in d then Missing
    else HalfPair
  }

  /**
   * What happens around one run: the directory after the competitor's moves
   * while openssl runs, between the links, before the clean-up looks, and between
   * its look and its removal; and which calls work.
   */
  datatype World = World(
    afterOpenssl: Dir, betweenLinks: Dir, beforeLook: Dir, beforeRemove: Dir,
    opensslWorks: bool, keyLinks: bool, certLinks: bool, removes: bool)

  /** A step of this program's own: a link it made or a removal, with the directory before and after. */
  datatype OwnStep = Linked(before: Dir, after: Dir) | Removed(before: Dir, after: Dir)

  /** The competitor acts between this program's steps, and only with files of its own. */
  ghost predicate Possible(d: Dir, key: Inode, cert: Inode, w: World) {
    && key != cert && (forall n :: n in d ==> d[n] != key && d[n] != cert)
    && Competes(d, w.afterOpenssl, {key, cert})
    && (SelfKey !in w.afterOpenssl ==> Competes(w.afterOpenssl[SelfKey := key], w.betweenLinks, {key, cert}))
    && Competes(w.betweenLinks, w.beforeLook, {key, cert})
    && Competes(w.beforeLook, w.beforeRemove, {key, cert})
  }

  /** The key gets linked. */
  predicate LinksKey(d: Dir, root: bool, w: World) {
    && !root && PairOutcome(d) == Missing
    && w.opensslWorks && w.keyLinks && SelfKey !in w.afterOpenssl
  }

  /** The certificate does not, so the key is looked at again, to be removed. */
  predicate CleansUp(d: Dir, root: bool, w: World) {
    LinksKey(d, root, w) && !(w.certLinks && SelfCert !in w.betweenLinks)
  }

  predicate LooksOurs(key: Inode, w: World) { SelfKey in w.beforeLook && w.beforeLook[SelfKey] == key }

  /** Another's file stands in the key's place when the removal comes, and the look came before that. */
  predicate Swapped(key: Inode, w: World) {
    w.removes && LooksOurs(key, w) && SelfKey in w.beforeRemove && w.beforeRemove[SelfKey] != key
  }

  ghost predicate HarmlessStep(step: OwnStep, ours: set<Inode>) { Harmless(step.before, step.after, ours) }

  class Keys {
    var dir: Dir
    ghost var steps: seq<OwnStep>

    constructor (d: Dir)
      ensures dir == d && steps == []
    {
      dir, steps := d, [];
    }

    /** `link`: fails when the name exists, and when the call does. */
    method Link(name: Name, file: Inode, works: bool) returns (ok: bool)
      modifies this
      ensures ok <==> works && name !in old(dir)
      ensures dir == if ok then old(dir)[name := file] else old(dir)
      ensures steps == if ok then old(steps) + [Linked(old(dir), dir)] else old(steps)
      ensures Harmless(old(dir), dir, {})
    {
      ok := works && name !in dir;
      if ok {
        ghost var before := dir;
        dir := dir[name := file];
        steps := steps + [Linked(before, dir)];
      }
    }

    /**
     * `create_with`. None of its links replaces or removes a file; its clean-up
     * removes another's file if and only if that was put in the key's place between
     * its look and its removal. On failure a file of its own stays linked if and only
     * if the clean-up could not remove it. The directory it leaves is exactly the
     * competitor's with this program's own steps.
     */
    method CreateWith(root: bool, key: Inode, cert: Inode, w: World) returns (r: Outcome)
      requires Possible(dir, key, cert, w) && steps == []
      modifies this
      ensures forall i :: 0 <= i < |steps| && steps[i].Linked? ==> HarmlessStep(steps[i], {key, cert})
      ensures (exists i :: 0 <= i < |steps| && !HarmlessStep(steps[i], {key, cert}))
              <==> CleansUp(old(dir), root, w) && Swapped(key, w)
      ensures r == Made <==> LinksKey(old(dir), root, w) && !CleansUp(old(dir), root, w)
      ensures !LinksKey(old(dir), root, w) ==>
                dir == (if root || PairOutcome(old(dir)) != Missing then old(dir) else w.afterOpenssl) && steps == []
      ensures r == Made ==> dir == w.betweenLinks[SelfCert := cert] && |steps| == 2
      ensures CleansUp(old(dir), root, w) ==>
                dir == if LooksOurs(key, w) && w.removes then w.beforeRemove - {SelfKey} else w.beforeRemove
      ensures r != Made ==>
                ((exists n :: n in dir && dir[n] in {key, cert})
                 <==> CleansUp(old(dir), root, w) && !w.removes
                      && SelfKey in w.beforeRemove && w.beforeRemove[SelfKey] == key)
      ensures !root && r in {AlreadyThere, Missing, HalfPair} ==> r == PairOutcome(dir)
      ensures root ==> r == Missing
    {
      if root {
        return Missing;
      }
      r := PairOutcome(dir);
      if r != Missing {
        return;
      }
      dir := w.afterOpenssl;
      if !w.opensslWorks {
        return OpensslFailed;
      }
      var linked := Link(SelfKey, key, w.keyLinks);
      if !linked {
        r := if SelfKey in dir then PairOutcome(dir) else LinkFailed;
        return;
      }
      r := LinkCert(key, cert, w);
    }

    /** The rest, once the key is linked: the certificate's link, or the clean-up. */
    method LinkCert(key: Inode, cert: Inode, w: World) returns (r: Outcome)
      requires key != cert && SelfKey !in w.afterOpenssl && dir == w.afterOpenssl[SelfKey := key]
      requires forall n :: n in w.afterOpenssl ==> w.afterOpenssl[n] !in {key, cert}
      requires Competes(dir, w.betweenLinks, {key, cert}) && Competes(w.betweenLinks, w.beforeLook, {key, cert})
      requires Competes(w.beforeLook, w.beforeRemove, {key, cert})
      requires |steps| == 1 && steps[0].Linked? && HarmlessStep(steps[0], {key, cert})
      modifies this
      ensures forall i :: 0 <= i < |steps| && steps[i].Linked? ==> HarmlessStep(steps[i], {key, cert})
      ensures (exists i :: 0 <= i < |steps| && !HarmlessStep(steps[i], {key, cert})) <==> r != Made && Swapped(key, w)
      ensures r == Made <==> w.certLinks && SelfCert !in w.betweenLinks
      ensures r == Made ==> dir == w.betweenLinks[SelfCert := cert] && |steps| == 2
      ensures r != Made ==>
                dir == if LooksOurs(key, w) && w.removes then w.beforeRemove - {SelfKey} else w.beforeRemove
      ensures r != Made ==>
                ((exists n :: n in dir && dir[n] in {key, cert})
                 <==> !w.removes && SelfKey in w.beforeRemove && w.beforeRemove[SelfKey] == key)
      ensures r in {AlreadyThere, Missing, HalfPair} ==> r == PairOutcome(dir)
    {
      dir := w.betweenLinks;
      var exists_ := SelfCert in dir;
      var linked := Link(SelfCert, cert, w.certLinks);
      if linked {
        return Made;
      }
      CleanUp(key, cert, w);
      r := if exists_ then PairOutcome(dir) else LinkFailed;
    }

    /** Remove the key's link if, when looked at, it is this program's own inode. */
    method CleanUp(key: Inode, cert: Inode, w: World)
      requires key != cert
      requires Competes(dir, w.beforeLook, {key, cert}) && Competes(w.beforeLook, w.beforeRemove, {key, cert})
      requires forall n :: n in dir && n != SelfKey ==> dir[n] != key && dir[n] != cert
      requires SelfKey in dir ==> dir[SelfKey] != cert
      modifies this
      ensures dir == if LooksOurs(key, w) && w.removes then w.beforeRemove - {SelfKey} else w.beforeRemove
      ensures steps == old(steps) + if LooksOurs(key, w) && w.removes then [Removed(w.beforeRemove, dir)] else []
      ensures steps != old(steps) ==> (HarmlessStep(steps[|old(steps)|], {key, cert}) <==> !Swapped(key, w))
      ensures (exists n :: n in dir && dir[n] in {key, cert})
              <==> !w.removes && SelfKey in w.beforeRemove && w.beforeRemove[SelfKey] == key
    {
      dir := w.beforeLook;
      var ours := SelfKey in dir && dir[SelfKey] == key;
      dir := w.beforeRemove;
      if ours && w.removes {
        ghost var before := dir;
        dir := dir - {SelfKey};
        steps := steps + [Removed(before, dir)];
      }
    }

    /**
     * What `begin` does with the pair: create it, and then look for a legacy pair to
     * move. `afterwards` is the directory when it looks. Since the pair is created
     * first, a legacy pair is moved if and only if someone took the new pair away in
     * between.
     */
    method BeginPair(root: bool, key: Inode, cert: Inode, w: World, afterwards: Dir, selfSigned: bool)
      returns (r: Outcome, m: Option<Move>, ghost created: Dir)
      requires Possible(dir, key, cert, w) && steps == []
      modifies this
      ensures r == Made <==> LinksKey(old(dir), root, w) && !CleansUp(old(dir), root, w)
      ensures r == Made ==> created == w.betweenLinks[SelfCert := cert]
      ensures r == AlreadyThere ==> SelfCert in created && SelfKey in created
      ensures m.Some? <==> r == Made || r == AlreadyThere
      ensures m.Some? ==> m.value == MoveDecision(afterwards, selfSigned)
      ensures m == Some(Renamed) <==>
                && m.Some? && SelfCert !in afterwards && SelfKey !in afterwards
                && AppleCert in afterwards && AppleKey in afterwards && AppleRecord !in afterwards && selfSigned
      ensures afterwards == created ==> m != Some(Renamed)
      ensures dir == if m == Some(Renamed) then map[SelfCert := afterwards[AppleCert], SelfKey := afterwards[AppleKey]]
                     else if m.Some? then afterwards else created
    {
      r := CreateWith(root, key, cert, w);
      created := dir;
      m := None;
      if r == Made || r == AlreadyThere {
        dir := afterwards;
        m := Some(MoveDecision(dir, selfSigned));
        if m == Some(Renamed) {
          MoveKeepsAPair(dir, 4);
          dir := Moved(dir, 4);
        }
      }
    }
  }

  /** With nobody else about, a legacy pair that could be moved stays where it is. */
  method LegacyPairStays() returns (keys: Keys, r: Outcome, m: Option<Move>)
    ensures MoveDecision(map[AppleCert := 8, AppleKey := 9], true) == Renamed
    ensures fresh(keys) && r == Made && m == Some(DestinationExists)
    ensures keys.dir == map[AppleCert := 8, AppleKey := 9, SelfKey := 1, SelfCert := 2]
  {
    var legacy := map[AppleCert := 8, AppleKey := 9];
    var linked := legacy[SelfKey := 1];
    var pair := linked[SelfCert := 2];
    keys := new Keys(legacy);
    ghost var created;
    var w := World(legacy, linked, linked, linked, true, true, true, true);
    r, m, created := keys.BeginPair(false, 1, 2, w, pair, true);
  }

  /** A run in which the clean-up removes the competitor's key, put in place after the look. */
  method RemovesAnothersKey() returns (keys: Keys, r: Outcome)
    ensures fresh(keys) && r != Made
    ensures exists i :: 0 <= i < |keys.steps| && !HarmlessStep(keys.steps[i], {1, 2})
    ensures keys.dir == map[SelfCert := 3]
  {
    keys := new Keys(map[]);
    var w := World(map[], map[SelfKey := 1, SelfCert := 3], map[SelfKey := 1, SelfCert := 3],
                   map[SelfKey := 4, SelfCert := 3], true, true, true, true);
    r := keys.CreateWith(false, 1, 2, w);
  }

  // ------------------------------------------------------------------ moving a legacy pair

  datatype Move = NothingToRename | HasRecord | DestinationExists | NotOurs | Renamed

  /** What `migrate_legacy` decides; `selfSigned` stands for its two openssl checks. */
  function MoveDecision(d: Dir, selfSigned: bool): (m: Move) {
    if !(AppleCert in d && AppleKey in d) then NothingToRename
    else if AppleRecord in d then HasRecord
    else if SelfCert in d || SelfKey in d then DestinationExists
    else if !selfSigned then NotOurs
    else Renamed
  }

  /** The directory after the first `n` of the four steps. */
  function Moved(d: Dir, n: nat): (r: Dir)
    requires AppleCert in d && AppleKey in d && n <= 4
  {
    if n == 0 then d
    else
      var before := Moved(d, n - 1);
      if n == 1 then before[SelfKey := d[AppleKey]]
      else if n == 2 then before[SelfCert := d[AppleCert]]
      else if n == 3 then before - {AppleKey}
      else before - {AppleCert}
  }

  predicate PairAt(d: Dir, certName: Name, keyName: Name, cert: Inode, key: Inode) {
    certName in d && keyName in d && d[certName] == cert && d[keyName] == key
  }

  /**
   * Stopped after any of its steps, the move leaves the whole pair under the old
   * names or the whole pair under the new ones, replaces no file, and once done
   * the pair is under the new names only.
   */
  lemma MoveKeepsAPair(d: Dir, n: nat)
    requires MoveDecision(d, true) == Renamed && n <= 4
    ensures var t := Moved(d, n);
            var cert, key := d[AppleCert], d[AppleKey];
            && (PairAt(t, AppleCert, AppleKey, cert, key) || PairAt(t, SelfCert, SelfKey, cert, key))
            && (n > 0 ==> forall name :: name in Moved(d, n - 1) && name in t ==> t[name] == Moved(d, n - 1)[name])
            && (n == 4 ==> t == map[SelfCert := cert, SelfKey := key])
  {
    var d1 := Moved(d, 1);
    assert Moved(d, 0) == d;
    assert d1 == d[SelfKey := d[AppleKey]];
    var d2 := Moved(d, 2);
    assert d2 == d1[SelfCert := d[AppleCert]];
    var d3 := Moved(d, 3);
    assert d3 == d2 - {AppleKey};
    assert Moved(d, 4) == d3 - {AppleCert};
    forall name
      ensures name in Moved(d, 4) ==> name == SelfCert || name == SelfKey
    {
      match name
      case AppleCert =>
      case AppleKey =>
      case AppleRecord =>
      case SelfCert =>
      case SelfKey =>
    }
  }
}
