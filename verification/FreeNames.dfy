/** Names for received files: `os.path.splitext` and `open_new`. */
module FreeNames {
  import opened Basics

  const CANDIDATES := 10000

  /** The place of the last `c`, or -1. */
  function LastOf(s: string, c: char): (i: int)
    ensures -1 <= i < |s|
  {
    if s == [] then -1
    else if s[|s| - 1] == c then |s| - 1
    else LastOf(s[..|s| - 1], c)
  }

  /** `os.path.splitext`: leading dots of the last component start no extension. */
  function SplitExt(name: string): (r: (string, string))
    ensures r.0 + r.1 == name
  {
    var dot, slash := LastOf(name, '.'), LastOf(name, '/');
    if exists i :: slash < i < dot && name[i] != '.' then (name[..dot], name[dot..]) else (name, [])
  }

  function Candidate(name: string, i: nat): (r: string) {
    var (stem, ext) := SplitExt(name);
    if i == 0 then name else stem + (['-'] + (Decimal(i) + ext))
  }

  /** The first candidate from the `i`th on that is not taken. */
  function FirstFree(taken: set<string>, name: string, i: nat): (r: Option<string>)
    decreases CANDIDATES - i
  {
    if i >= CANDIDATES then None
    else if Candidate(name, i) in taken then FirstFree(taken, name, i + 1)
    else Some(Candidate(name, i))
  }

  lemma MiddleCut(a: string, b: string, c: string, s: string)
    requires s == a + (['-'] + (b + c))
    ensures |s| == |a| + 1 + |b| + |c| && s[|a| + 1..|a| + 1 + |b|] == b
  {
  }

  lemma NumbersDiffer(i: nat, j: nat)
    requires i != j
    ensures Decimal(i) != Decimal(j)
  {
    DecimalRoundTrip(i);
    DecimalRoundTrip(j);
  }

  lemma MiddlesDiffer(a: string, b: string, c: string, d: string)
    requires b != d
    ensures a + (['-'] + (b + c)) != a + (['-'] + (d + c))
  {
    MiddleCut(a, b, c, a + (['-'] + (b + c)));
    MiddleCut(a, d, c, a + (['-'] + (d + c)));
  }

  lemma CandidatesDiffer(name: string, i: nat, j: nat)
    requires i != j
    ensures Candidate(name, i) != Candidate(name, j)
  {
    var (stem, ext) := SplitExt(name);
    if i > 0 && j > 0 {
      NumbersDiffer(i, j);
      MiddlesDiffer(stem, Decimal(i), ext, Decimal(j));
    }
  }

  /** The first `n` candidates. */
  ghost function Tried(name: string, n: nat): (r: set<string>) {
    if n == 0 then {} else Tried(name, n - 1) + {Candidate(name, n - 1)}
  }

  lemma {:induction false} TriedAreDistinct(name: string, n: nat, j: nat)
    requires n <= j
    ensures |Tried(name, n)| == n && Candidate(name, j) !in Tried(name, n)
  {
    if n > 0 {
      TriedAreDistinct(name, n - 1, n - 1);
      TriedAreDistinct(name, n - 1, j);
      CandidatesDiffer(name, n - 1, j);
    }
  }

  lemma {:induction false} NoneFree(taken: set<string>, name: string, i: nat)
    requires i <= CANDIDATES && FirstFree(taken, name, i).None? && Tried(name, i) <= taken
    ensures Tried(name, CANDIDATES) <= taken
    decreases CANDIDATES - i
  {
    if i < CANDIDATES {
      assert Tried(name, i + 1) == Tried(name, i) + {Candidate(name, i)};
      NoneFree(taken, name, i + 1);
    }
  }

  lemma SubsetSize<T>(a: set<T>, b: set<T>)
    requires a <= b
    ensures |a| <= |b|
  {
    assert b == a + (b - a);
  }

  /** A folder of fewer files than there are candidates always has a name left. */
  lemma NameIsFound(taken: set<string>, name: string)
    requires |taken| < CANDIDATES
    ensures FirstFree(taken, name, 0).Some?
  {
    if FirstFree(taken, name, 0).None? {
      NoneFree(taken, name, 0);
      TriedAreDistinct(name, CANDIDATES, CANDIDATES);
      SubsetSize(Tried(name, CANDIDATES), taken);
      assert false;
    }
  }

  /** The name found is the first of the candidates that is not taken. */
  lemma {:induction false} FirstFreeExactly(taken: set<string>, name: string, i: nat, k: nat)
    requires i <= k < CANDIDATES && Candidate(name, k) !in taken
    requires forall j :: i <= j < k ==> Candidate(name, j) in taken
    ensures FirstFree(taken, name, i) == Some(Candidate(name, k))
    decreases k - i
  {
    if i < k {
      FirstFreeExactly(taken, name, i + 1, k);
    }
  }

  class Folder {
    var files: map<string, Bytes>

    constructor (files: map<string, Bytes>)
      ensures this.files == files
    {
      this.files := files;
    }

    /**
     * `open_new`: creates an empty file under the first free name and touches no
     * other; fails only when all are taken, or the call does.
     */
    method OpenNew(name: string, works: bool) returns (r: Option<string>)
      modifies this
      ensures r == if works then FirstFree(old(files).Keys, name, 0) else None
      ensures r.Some? ==> r.value !in old(files) && files == old(files)[r.value := []]
      ensures r.None? ==> files == old(files)
    {
      if !works {
        return None;
      }
      for i := 0 to CANDIDATES
        invariant files == old(files) && FirstFree(files.Keys, name, 0) == FirstFree(files.Keys, name, i)
      {
        var cand := Candidate(name, i);
        if cand !in files {
          files := files[cand := []];
          return Some(cand);
        }
      }
      r := None;
    }
  }
}
