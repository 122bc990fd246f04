/**
  String order used by the program when it sorts its results (`sort.StringSlice`
  compares with Go's `<` on strings): lexicographic, element by element, a proper
  prefix coming first. Strings are modelled as `seq<char>`; for valid UTF-8 the
  code-point order used here coincides with Go's byte-wise order.
 */
module Lex {

  /** `a < b` on Go strings. */
  predicate Below(a: string, b: string)
  {
    if a == [] then b != []
    else if b == [] then false
    else if a[0] != b[0] then a[0] < b[0]
    else Below(a[1..], b[1..])
  }

  /** Reference definition: `a` and `b` agree up to index `k`, where `a` ends
      first or has the smaller character. */
  ghost predicate DiffersBelowAt(a: string, b: string, k: nat)
  {
    && k <= |a| && k <= |b|
    && a[..k] == b[..k]
    && (k == |a| < |b| || (k < |a| && k < |b| && a[k] < b[k]))
  }

  lemma {:induction false} BelowHasWitness(a: string, b: string)
    requires Below(a, b)
    ensures exists k: nat :: DiffersBelowAt(a, b, k)
  {
    if a == [] {
      assert DiffersBelowAt(a, b, 0);
    } else if a[0] != b[0] {
      assert DiffersBelowAt(a, b, 0);
    } else {
      BelowHasWitness(a[1..], b[1..]);
      var k: nat :| DiffersBelowAt(a[1..], b[1..], k);
      assert a[..k + 1] == [a[0]] + a[1..][..k];
      assert b[..k + 1] == [b[0]] + b[1..][..k];
      assert DiffersBelowAt(a, b, k + 1);
    }
  }

  lemma {:induction false} WitnessGivesBelow(a: string, b: string, k: nat)
    requires DiffersBelowAt(a, b, k)
    ensures Below(a, b)
  {
    if k > 0 {
      assert a[0] == a[..k][0] == b[..k][0] == b[0];
      assert a[1..][..k - 1] == a[..k][1..] == b[..k][1..] == b[1..][..k - 1];
      WitnessGivesBelow(a[1..], b[1..], k - 1);
    }
  }

  /** The recursive order and the first-difference definition agree. */
  lemma BelowIffDiffers(a: string, b: string)
    ensures Below(a, b) <==> exists k: nat :: DiffersBelowAt(a, b, k)
  {
    if Below(a, b) {
      BelowHasWitness(a, b);
    }
    if exists k: nat :: DiffersBelowAt(a, b, k) {
      var k: nat :| DiffersBelowAt(a, b, k);
      WitnessGivesBelow(a, b, k);
    }
  }

  /** A proper prefix comes first. */
  lemma {:induction false} BelowProperPrefix(a: string, b: string)
    requires |a| < |b| && a == b[..|a|]
    ensures Below(a, b)
  {
    if a != [] {
      assert a[0] == b[0];
      assert a[1..] == b[1..][..|a| - 1];
      BelowProperPrefix(a[1..], b[1..]);
    }
  }

  lemma {:induction false} BelowIrreflexive(a: string)
    ensures !Below(a, a)
  {
    if a != [] {
      BelowIrreflexive(a[1..]);
    }
  }

  lemma {:induction false} BelowAsymmetric(a: string, b: string)
    requires Below(a, b)
    ensures !Below(b, a)
  {
    if a != [] && b != [] && a[0] == b[0] {
      BelowAsymmetric(a[1..], b[1..]);
    }
  }

  lemma {:induction false} BelowTransitive(a: string, b: string, c: string)
    requires Below(a, b) && Below(b, c)
    ensures Below(a, c)
  {
    if a != [] && a[0] == b[0] && b[0] == c[0] {
      BelowTransitive(a[1..], b[1..], c[1..]);
    }
  }

  /** Any two distinct strings are ordered one way or the other. */
  lemma {:induction false} BelowTotal(a: string, b: string)
    ensures a == b || Below(a, b) || Below(b, a)
  {
    if a != [] && b != [] && a[0] == b[0] {
      BelowTotal(a[1..], b[1..]);
      if a[1..] == b[1..] {
        assert a == [a[0]] + a[1..] && b == [b[0]] + b[1..];
      }
    }
  }

  /** Ascending, duplicates allowed: what `sort.Sort` leaves behind. */
  predicate Sorted(s: seq<string>)
  {
    forall i, j :: 0 <= i < j < |s| ==> !Below(s[j], s[i])
  }

  /** Strictly ascending: sorted and free of duplicates. */
  predicate StrictlyAscending(s: seq<string>)
  {
    forall i, j :: 0 <= i < j < |s| ==> Below(s[i], s[j])
  }

  /** Each element strictly below its successor. */
  predicate AdjacentAscending(s: seq<string>)
  {
    forall i :: 0 < i < |s| ==> Below(s[i - 1], s[i])
  }

  lemma {:induction false} AdjacentGivesStrict(s: seq<string>)
    requires AdjacentAscending(s)
    ensures StrictlyAscending(s)
  {
    if |s| > 1 {
      var t := s[..|s| - 1];
      assert AdjacentAscending(t);
      AdjacentGivesStrict(t);
      forall i | 0 <= i < |s| - 1
        ensures Below(s[i], s[|s| - 1])
      {
        if i < |s| - 2 {
          assert Below(t[i], t[|s| - 2]);
          BelowTransitive(s[i], s[|s| - 2], s[|s| - 1]);
        }
      }
    }
  }

  lemma StrictHasNoDuplicates(s: seq<string>, i: nat, j: nat)
    requires StrictlyAscending(s) && i < |s| && j < |s| && i != j
    ensures s[i] != s[j]
  {
    if i < j {
      BelowIrreflexive(s[i]);
    } else {
      BelowIrreflexive(s[j]);
    }
  }

  /** A strictly ascending list is determined by its set of elements: the sorted,
      duplicate-free result does not depend on how it was computed. */
  lemma {:induction false} AscendingUnique(s: seq<string>, t: seq<string>)
    requires StrictlyAscending(s) && StrictlyAscending(t)
    requires forall x :: x in s <==> x in t
    ensures s == t
  {
    assert s != [] ==> s[0] in t;
    assert t != [] ==> t[0] in s;
    if s != [] && t != [] {
      assert s[0] == t[0] by {
        assert s[0] in t && t[0] in s;
        var i :| 0 <= i < |t| && t[i] == s[0];
        var j :| 0 <= j < |s| && s[j] == t[0];
        if s[0] != t[0] {
          assert i > 0 && j > 0;
          assert Below(t[0], s[0]) && Below(s[0], t[0]);
          BelowAsymmetric(t[0], s[0]);
        }
      }
      forall x
        ensures x in s[1..] <==> x in t[1..]
      {
        if x in s[1..] {
          var j :| 1 <= j < |s| && s[j] == x;
          StrictHasNoDuplicates(s, 0, j);
          assert x in t;
          var i :| 0 <= i < |t| && t[i] == x;
          assert i != 0;
        }
        if x in t[1..] {
          var j :| 1 <= j < |t| && t[j] == x;
          StrictHasNoDuplicates(t, 0, j);
          assert x in s;
          var i :| 0 <= i < |s| && s[i] == x;
          assert i != 0;
        }
      }
      AscendingUnique(s[1..], t[1..]);
      assert s == [s[0]] + s[1..] && t == [t[0]] + t[1..];
    }
  }

  lemma SortedTail(s: seq<string>)
    requires Sorted(s) && s != []
    ensures Sorted(s[1..])
  {
    forall i, j | 0 <= i < j < |s| - 1
      ensures !Below(s[1..][j], s[1..][i])
    {
      assert s[1..][j] == s[j + 1] && s[1..][i] == s[i + 1];
    }
  }

  /** Two sorted lists holding the same strings start with the same string. */
  lemma SortedSameHead(s: seq<string>, t: seq<string>)
    requires Sorted(s) && Sorted(t) && s != [] && t != []
    requires multiset(s) == multiset(t)
    ensures s[0] == t[0]
  {
    assert s[0] in multiset(t) && t[0] in multiset(s);
    var j :| 0 <= j < |t| && t[j] == s[0];
    var i :| 0 <= i < |s| && s[i] == t[0];
    BelowIrreflexive(s[0]);
    BelowIrreflexive(t[0]);
    assert !Below(t[j], t[0]);
    assert !Below(s[i], s[0]);
    BelowTotal(s[0], t[0]);
  }

  /** A sorted list is determined by the strings it holds and how often: any correct
      sorting algorithm leaves the same result. */
  lemma {:induction false} SortedUnique(s: seq<string>, t: seq<string>)
    requires Sorted(s) && Sorted(t)
    requires multiset(s) == multiset(t)
    ensures s == t
  {
    assert |s| == |multiset(s)| == |multiset(t)| == |t|;
    if s != [] {
      SortedSameHead(s, t);
      assert s == [s[0]] + s[1..] && t == [t[0]] + t[1..];
      assert multiset(s[1..]) == multiset(s) - multiset{s[0]};
      assert multiset(t[1..]) == multiset(t) - multiset{t[0]};
      SortedTail(s);
      SortedTail(t);
      SortedUnique(s[1..], t[1..]);
    }
  }
}
