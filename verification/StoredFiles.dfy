/**
 * What storing an archive means: which members become files, under which names,
 * and exactly when it succeeds.
 */
module StoredFiles {
  import opened Basics
  import opened FreeNames
  import opened Extraction

  // ------------------------------------------------------------------ names

  /** The last `c` of `s`, or none. */
  lemma {:induction false} LastOfExactly(s: string, c: char)
    ensures LastOf(s, c) >= 0 ==> s[LastOf(s, c)] == c
    ensures forall i :: LastOf(s, c) < i < |s| ==> s[i] != c
  {
    if s != [] && s[|s| - 1] != c {
      var front := s[..|s| - 1];
      LastOfExactly(front, c);
      assert forall i :: 0 <= i < |front| ==> s[i] == front[i];
    }
  }

  lemma LastIsBehind(s: string, c: char, at: nat)
    requires at < |s| && s[at] == c
    ensures at <= LastOf(s, c)
  {
    LastOfExactly(s, c);
  }

  /** `base` is the last component of `path`. */
  predicate IsBase(path: string, base: string) {
    && |base| <= |path| && path[|path| - |base|..] == base && '/' !in base
    && (|base| == |path| || path[|path| - |base| - 1] == '/')
  }

  lemma BaseIsUnique(path: string, base: string)
    requires IsBase(path, base)
    ensures base == path[LastOf(path, '/') + 1..]
  {
    LastOfExactly(path, '/');
    var slash, cut := LastOf(path, '/'), |path| - |base|;
    assert forall i :: cut <= i < |path| ==> path[i] == base[i - cut];
  }

  /** A member that becomes a file: a regular one whose last component does not start with `._`. */
  ghost predicate Regular(e: Entry) {
    e.isFile && forall base :: IsBase(e.pathname, base) ==> !("._" <= base)
  }

  lemma CutIsBase(path: string, first: nat, base: string)
    requires first <= |path| && base == path[first..] && (first == 0 || path[first - 1] == '/')
    requires forall i :: first <= i < |path| ==> path[i] != '/'
    ensures IsBase(path, base)
  {
    assert |path| - |base| == first;
  }

  /** Where the last slash is, none or one with none behind it. */
  lemma LastSlash(path: string) returns (first: nat)
    ensures first == LastOf(path, '/') + 1 <= |path| && (first == 0 || path[first - 1] == '/')
    ensures forall i :: first <= i < |path| ==> path[i] != '/'
  {
    LastOfExactly(path, '/');
    first := LastOf(path, '/') + 1;
  }

  lemma LastComponent(path: string) returns (first: nat, base: string)
    ensures first == LastOf(path, '/') + 1 <= |path| && base == path[first..] && IsBase(path, base)
  {
    first := LastSlash(path);
    base := path[first..];
    CutIsBase(path, first, base);
  }

  lemma DotUnderscore(base: string)
    ensures "._" <= base <==> |base| >= 2 && base[0] == '.' && base[1] == '_'
  {
  }

  lemma AppleDoubleExactly(path: string)
    ensures AppleDouble(path) <==> exists base :: IsBase(path, base) && "._" <= base
  {
    var first, own := LastComponent(path);
    DotUnderscore(own);
    if base :| IsBase(path, base) && "._" <= base {
      BaseIsUnique(path, base);
    }
  }

  lemma SkippedExactly(e: Entry)
    ensures Skipped(e) <==> !Regular(e)
  {
    AppleDoubleExactly(e.pathname);
  }

  /** A dot of the last component with something other than dots before it. */
  ghost predicate HasExtension(name: string) {
    exists base, i, j :: IsBase(name, base) && 0 <= i < j < |base| && base[i] != '.' && base[j] == '.'
  }

  lemma ExtensionFound(name: string, dot: nat, slash: int, i: nat)
    requires dot == LastOf(name, '.') && slash == LastOf(name, '/') && slash < i < dot && name[i] != '.'
    ensures HasExtension(name)
  {
    LastOfExactly(name, '.');
    LastOfExactly(name, '/');
    var base := name[slash + 1..];
    assert IsBase(name, base);
    assert base[i - slash - 1] == name[i] && base[dot - slash - 1] == name[dot];
  }

  lemma ExtensionSplits(name: string)
    requires HasExtension(name)
    ensures exists i :: LastOf(name, '/') < i < LastOf(name, '.') && name[i] != '.'
  {
    var base, i, j :| IsBase(name, base) && 0 <= i < j < |base| && base[i] != '.' && base[j] == '.';
    BaseIsUnique(name, base);
    var first := LastOf(name, '/') + 1;
    assert name[first + i] == base[i] && name[first + j] == base[j];
    LastIsBehind(name, '.', first + j);
    assert LastOf(name, '/') < first + i < LastOf(name, '.');
  }

  lemma ExtensionShape(name: string)
    requires SplitExt(name).1 != []
    ensures var ext := SplitExt(name).1; ext[0] == '.' && '.' !in ext[1..] && '/' !in ext
  {
    LastOfExactly(name, '.');
    LastOfExactly(name, '/');
    var dot := LastOf(name, '.');
    assert name[dot..][1..] == name[dot + 1..];
    NoSlashBehind(name, LastOf(name, '/'), dot);
  }

  /**
   * `splitext`: the extension starts at a dot and holds no other and no slash; and
   * there is one exactly when the last component has a dot with something other than
   * dots before it.
   */
  lemma SplitExtExactly(name: string)
    ensures var (stem, ext) := SplitExt(name);
            && stem + ext == name
            && (ext != [] ==> ext[0] == '.' && '.' !in ext[1..] && '/' !in ext)
            && (ext != [] <==> HasExtension(name))
  {
    var dot, slash := LastOf(name, '.'), LastOf(name, '/');
    if i :| slash < i < dot && name[i] != '.' {
      ExtensionFound(name, dot, slash, i);
      ExtensionShape(name);
    }
    if HasExtension(name) {
      ExtensionSplits(name);
    }
  }

  lemma NoSlashBehind(name: string, slash: int, dot: nat)
    requires -1 <= slash < dot < |name| && forall i :: slash < i < |name| ==> name[i] != '/'
    ensures '/' !in name[dot..]
  {
  }

  /** The candidates for a name: itself, then with -1, -2, ... before the extension. */
  lemma CandidateExactly(name: string, stem: string, ext: string, i: nat)
    requires SplitExt(name) == (stem, ext)
    ensures Candidate(name, 0) == name
    ensures i > 0 ==> Candidate(name, i) == stem + "-" + Decimal(i) + ext
  {
  }

  // ------------------------------------------------------------------ what a success stores

  /** The places of the members that become files, in order. */
  ghost predicate Picks(entries: seq<Entry>, at: seq<nat>) {
    && (forall i :: 0 <= i < |at| ==> at[i] < |entries|)
    && (forall i, j :: 0 <= i < j < |at| ==> at[i] < at[j])
    && forall k :: 0 <= k < |entries| ==> (k in at <==> Regular(entries[k]))
  }

  lemma PicksNext(entries: seq<Entry>, e: Entry, at: seq<nat>)
    requires Picks(entries, at)
    ensures Picks(entries + [e], if Regular(e) then at + [|entries|] else at)
  {
    var more := entries + [e];
    forall k | 0 <= k < |more|
      ensures k in (if Regular(e) then at + [|entries|] else at) <==> Regular(more[k])
    {
      assert k < |entries| ==> more[k] == entries[k];
      assert |entries| !in at;
    }
  }

  /**
   * The folder `m` with one file for each of these members: each under the first
   * candidate for its name that is then free, with its own blocks, and nothing else
   * changed.
   */
  ghost predicate StoredAs(m: Files, entries: seq<Entry>, at: seq<nat>, sh: Shelf)
    requires forall i :: 0 <= i < |at| ==> at[i] < |entries|
  {
    && |sh.names| == |at|
    && sh.files.Keys == m.Keys + Names(sh.names)
    && (forall n :: n in m ==> sh.files[n] == m[n])
    && forall i :: 0 <= i < |at| ==> StoredOne(m, sh.names, i, entries[at[i]], sh.files)
  }

  ghost function Names(names: seq<string>): (s: set<string>) { set n | n in names }

  ghost predicate StoredOne(m: Files, names: seq<string>, i: nat, e: Entry, files: Files)
    requires i < |names|
  {
    && FirstFree(m.Keys + Names(names[..i]), e.base, 0) == Some(names[i])
    && names[i] in files && files[names[i]] == Concat(e.blocks)
  }

  lemma StillStored(m: Files, names: seq<string>, i: nat, e: Entry, files: Files, name: string, data: Bytes)
    requires i < |names| && StoredOne(m, names, i, e, files) && name !in files
    ensures StoredOne(m, names + [name], i, e, files[name := data])
  {
    assert (names + [name])[..i] == names[..i];
  }

  lemma NewlyStored(m: Files, names: seq<string>, e: Entry, files: Files, name: string)
    requires files.Keys == m.Keys + Names(names) && FirstFree(files.Keys, e.base, 0) == Some(name)
    ensures StoredOne(m, names + [name], |names|, e, files[name := Concat(e.blocks)])
    ensures files[name := Concat(e.blocks)].Keys == m.Keys + Names(names + [name])
  {
    assert (names + [name])[..|names|] == names;
    assert Names(names + [name]) == Names(names) + {name};
  }

  lemma StoredNext(m: Files, entries: seq<Entry>, e: Entry, at: seq<nat>, sh: Shelf, name: string, next: Shelf)
    requires Picks(entries, at) && StoredAs(m, entries, at, sh)
    requires FirstFree(sh.files.Keys, e.base, 0) == Some(name)
    requires next.files == sh.files[name := Concat(e.blocks)] && next.names == sh.names + [name]
    ensures StoredAs(m, entries + [e], at + [|entries|], next)
  {
    FirstFreeIsFree(sh.files.Keys, e.base, 0);
    NewlyStored(m, sh.names, e, sh.files, name);
    var more, places := entries + [e], at + [|entries|];
    forall i | 0 <= i < |places|
      ensures StoredOne(m, next.names, i, more[places[i]], next.files)
    {
      if i < |at| {
        StillStored(m, sh.names, i, entries[at[i]], sh.files, name, Concat(e.blocks));
      }
    }
  }

  lemma StoredSkip(m: Files, entries: seq<Entry>, e: Entry, at: seq<nat>, sh: Shelf)
    requires Picks(entries, at) && StoredAs(m, entries, at, sh)
    ensures StoredAs(m, entries + [e], at, sh)
  {
    forall i | 0 <= i < |at|
      ensures (entries + [e])[at[i]] == entries[at[i]]
    {
    }
  }

  /**
   * A success stores the regular members whose last component does not start with
   * `._`, one to one and in order, and no other.
   */
  lemma {:induction false} StoredExactly(m: Files, entries: seq<Entry>, limit: nat) returns (at: seq<nat>)
    requires Laid(m, entries, limit).Some?
    ensures Picks(entries, at) && StoredAs(m, entries, at, Laid(m, entries, limit).value)
  {
    if entries == [] {
      return [];
    }
    var front, e := entries[..|entries| - 1], entries[|entries| - 1];
    var sh := Laid(m, front, limit).value;
    at := StoredExactly(m, front, limit);
    assert entries == front + [e];
    SkippedExactly(e);
    PicksNext(front, e, at);
    if Skipped(e) {
      StoredSkip(m, front, e, at, sh);
    } else {
      var name := FirstFree(sh.files.Keys, e.base, 0).value;
      StoredNext(m, front, e, at, sh, name, Laid(m, entries, limit).value);
      at := at + [|front|];
    }
  }

  // ------------------------------------------------------------------ exactly when it succeeds

  /** The bytes of the members that become files. */
  ghost function RegularBytes(entries: seq<Entry>): (n: nat) {
    if entries == [] then 0
    else
      var e := entries[|entries| - 1];
      RegularBytes(entries[..|entries| - 1]) + if Regular(e) then |Concat(e.blocks)| else 0
  }

  /** A member that stands behind `before` bytes can be stored: its calls work and its sizes fit. */
  predicate Storable(e: Entry, before: nat, limit: nat) {
    && e.opens && e.closes
    && e.declared <= limit && before + e.declared <= limit
    && before + |Concat(e.blocks)| <= limit
  }

  ghost predicate Acceptable(entries: seq<Entry>, limit: nat) {
    && |entries| <= MAX_ARCHIVE_MEMBERS
    && forall k :: 0 <= k < |entries| && Regular(entries[k]) ==> Storable(entries[k], RegularBytes(entries[..k]), limit)
  }

  lemma AcceptableNext(entries: seq<Entry>, limit: nat)
    requires entries != []
    ensures var front, e := entries[..|entries| - 1], entries[|entries| - 1];
            Acceptable(entries, limit) <==>
            && Acceptable(front, limit) && |entries| <= MAX_ARCHIVE_MEMBERS
            && (Regular(e) ==> Storable(e, RegularBytes(front), limit))
  {
    var front := entries[..|entries| - 1];
    assert forall k :: 0 <= k < |front| ==> front[k] == entries[k] && front[..k] == entries[..k];
  }

  lemma OneMoreFile(files: Files, name: string, data: Bytes)
    ensures |files[name := data]| <= |files| + 1
  {
    assert files[name := data].Keys == files.Keys + {name};
  }

  lemma NextExactly(sh: Shelf, e: Entry, count: nat, limit: nat)
    requires |sh.files| < CANDIDATES && sh.bytes <= limit
    ensures LaidNext(sh, e, count, limit).Some? <==>
            count <= MAX_ARCHIVE_MEMBERS && (Regular(e) ==> Storable(e, sh.bytes, limit))
    ensures LaidNext(sh, e, count, limit).Some? ==>
              var next := LaidNext(sh, e, count, limit).value;
              && next.bytes == sh.bytes + (if Regular(e) then |Concat(e.blocks)| else 0)
              && next.bytes <= limit && |next.files| <= |sh.files| + 1
  {
    SkippedExactly(e);
    assert |sh.files.Keys| == |sh.files|;
    NameIsFound(sh.files.Keys, e.base);
    OneMoreFile(sh.files, FirstFree(sh.files.Keys, e.base, 0).value, Concat(e.blocks));
  }

  /**
   * With names enough, extraction succeeds if and only if there are at most 512
   * members and every regular one can be stored where its turn comes: nothing that
   * fits is refused.
   */
  lemma {:induction false} LaidSucceedsExactly(m: Files, entries: seq<Entry>, limit: nat)
    requires |m| + |entries| <= CANDIDATES
    ensures Laid(m, entries, limit).Some? <==> Acceptable(entries, limit)
    ensures Laid(m, entries, limit).Some? ==>
              var sh := Laid(m, entries, limit).value;
              sh.bytes == RegularBytes(entries) <= limit && |sh.files| <= |m| + |entries|
  {
    if entries != [] {
      var front, e := entries[..|entries| - 1], entries[|entries| - 1];
      LaidSucceedsExactly(m, front, limit);
      AcceptableNext(entries, limit);
      if Laid(m, front, limit).Some? {
        NextExactly(Laid(m, front, limit).value, e, |entries|, limit);
      }
    }
  }
}
