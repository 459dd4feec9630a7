/**
 * What the labels of a name are, and that a name is read back as itself: the
 * meaning of `DnsNames` on the text of names.
 */
module NameMeaning {
  import opened Basics
  import opened DnsNames

  /** Lowercasing turns each upper-case letter into its own lower-case one, and nothing else. */
  lemma LowerExactly(i: nat, c: char)
    requires i < 26 && (c < 'A' || 'Z' < c)
    ensures LowerChar('A' + i as char) == 'a' + i as char
    ensures LowerChar(c) == c
  {
  }

  /** A byte of a label: lowercased if it is ASCII, else the replacement character. */
  lemma ReadByteExactly(b: byte)
    ensures ReadByte(b) == if b < 128 then LowerChar(b as char) else '\U{fffd}'
  {
  }

  // ------------------------------------------------------------------ labels

  lemma {:induction false} FirstDotIs(s: string, n: nat)
    requires n <= |s| && '.' !in s[..n] && (n == |s| || s[n] == '.')
    ensures FirstDot(s) == n
  {
    if n > 0 {
      assert s[0] == s[..n][0];
      assert s[1..][..n - 1] == s[..n][1..];
      FirstDotIs(s[1..], n - 1);
    }
  }

  lemma {:induction false} NoDotBefore(s: string)
    ensures '.' !in s[..FirstDot(s)]
  {
    if s != [] && s[0] != '.' {
      NoDotBefore(s[1..]);
      var n := FirstDot(s[1..]);
      assert s[..n + 1] == [s[0]] + s[1..][..n];
    }
  }

  /** A nonempty name without dots is its own single label. */
  lemma OneLabel(a: string)
    requires a != [] && '.' !in a
    ensures Labels(a) == [a]
  {
    FirstDotIs(a, |a|);
    assert a[..|a|] == a;
  }

  /** A dot between two names puts their labels one after the other. */
  lemma {:induction false} LabelsJoin(a: string, b: string, s: string)
    requires s == a + (['.'] + b)
    ensures Labels(s) == Labels(a) + Labels(b)
    decreases |a|
  {
    NoDotBefore(a);
    var n := FirstDot(a);
    assert s[..n] == a[..n] && s[n] == '.';
    FirstDotIs(s, n);
    if n < |a| {
      assert s[n + 1..] == a[n + 1..] + (['.'] + b);
      LabelsJoin(a[n + 1..], b, s[n + 1..]);
    } else {
      assert s[n + 1..] == b;
      assert a[..n] == a;
    }
  }

  /** No label holds a dot. */
  lemma {:induction false} NoDotInLabels(name: string, k: nat)
    requires k < |Labels(name)|
    ensures '.' !in Labels(name)[k]
    decreases |name|
  {
    NoDotBefore(name);
    var n := FirstDot(name);
    if n == 0 {
      NoDotInLabels(name[1..], k);
    } else if k > 0 {
      NoDotInLabels(name[n + 1..], k - 1);
    }
  }

  // ------------------------------------------------------------------ names read back

  /** No dot at either end, and no two in a row. */
  predicate NoEmptyLabel(name: string) {
    && (name != [] ==> name[0] != '.' && name[|name| - 1] != '.')
    && forall i :: 0 <= i < |name| - 1 ==> !(name[i] == '.' && name[i + 1] == '.')
  }

  lemma RestHasNone(name: string, n: nat)
    requires NoEmptyLabel(name) && n < |name| && name[n] == '.'
    ensures n > 0 && n + 1 < |name| && NoEmptyLabel(name[n + 1..])
  {
    var rest := name[n + 1..];
    assert forall i :: 0 <= i < |rest| ==> rest[i] == name[n + 1 + i];
  }

  /** Joined with dots again, the labels of such a name are the name. */
  lemma {:induction false} JoinedAgain(name: string)
    requires NoEmptyLabel(name)
    ensures Dotted(Labels(name)) == name
    ensures Labels(name) == [] <==> name == []
    decreases |name|
  {
    if name != [] {
      NoDotBefore(name);
      var n := FirstDot(name);
      if n < |name| {
        RestHasNone(name, n);
        JoinedAgain(name[n + 1..]);
        var rest := Labels(name[n + 1..]);
        assert Labels(name) == [name[..n]] + rest;
        DottedCons(name[..n], rest);
        assert name == name[..n] + (['.'] + name[n + 1..]);
      } else {
        OneLabel(name);
      }
    }
  }

  lemma DottedCons(first: string, rest: seq<string>)
    requires rest != []
    ensures Dotted([first] + rest) == first + (['.'] + Dotted(rest))
  {
    assert ([first] + rest)[1..] == rest;
  }

  lemma LowerJoin(a: string, b: string)
    ensures Lower(a + (['.'] + b)) == Lower(a) + (['.'] + Lower(b))
  {
  }

  lemma {:induction false} DottedLower(ls: seq<string>)
    ensures Dotted(LowerAll(ls)) == Lower(Dotted(ls))
  {
    if |ls| == 1 {
      assert LowerAll(ls) == [Lower(ls[0])];
    } else if |ls| > 1 {
      var rest := ls[1..];
      DottedLower(rest);
      assert ls == [ls[0]] + rest;
      assert LowerAll(ls) == [Lower(ls[0])] + LowerAll(rest);
      DottedCons(ls[0], rest);
      DottedCons(Lower(ls[0]), LowerAll(rest));
      LowerJoin(ls[0], Dotted(rest));
    }
  }

  /**
   * Whatever surrounds it, what `dname` wrote is read back as the name itself,
   * lowercased, and the offset just after it; empty labels are all that is lost.
   */
  lemma NameComesBack(name: string, before: Bytes, after: Bytes)
    requires GoodName(name)
    ensures var wire := Wire(AllOctets(Labels(name))) + [0];
            NameAt(before + wire + after, |before|) == Some((Lower(Dotted(Labels(name))), |before| + |wire|))
    ensures NoEmptyLabel(name) ==> Dotted(Labels(name)) == name
  {
    NameRoundTrip(name, before, after);
    DottedLower(Labels(name));
    if NoEmptyLabel(name) {
      JoinedAgain(name);
    }
  }

  // ------------------------------------------------------------------ queries

  /** A query: a whole header, its first flag bit clear, and at least one question. */
  lemma QueryExactly(dns: Bytes)
    ensures IsQuery(dns) <==> |dns| >= 12 && dns[2] < 128 && (dns[4] != 0 || dns[5] != 0)
  {
  }
}
