/**
  Assembling the result list in `main` (main.go:163-177): every input URL is resolved
  in turn and each non-empty final URL appended to `furls`; the slice is then sorted
  in place (`sort.Sort`), its distinct elements are moved to the front (`set.Uniq`)
  and it is cut to their number.
 */
module Results {

  import opened Lex
  import opened Redirect

  /** The final URL a call hands back, empty when it does not return. */
  function FinalUrlOf(o: Outcome): (u: string)
  {
    if o.Returned? then o.finalUrl else ""
  }

  /** The final URL computed for each input URL, in input order. */
  function FinalUrls(urls: seq<string>, fetches: seq<Fetch>): (fs: seq<string>)
    requires |fetches| == |urls|
    ensures |fs| == |urls|
  {
    seq(|urls|, k requires 0 <= k < |urls| => FinalUrlOf(GetFinalUrl(urls[k], fetches[k])))
  }

  /** What the collection loop keeps of a list of results: the non-empty ones, in
      order, appended one by one. */
  function Kept(rs: seq<string>): (k: seq<string>)
    ensures "" !in k
    ensures |k| <= |rs|
  {
    if rs == [] then []
    else Kept(rs[..|rs| - 1]) + (if rs[|rs| - 1] != "" then [rs[|rs| - 1]] else [])
  }

  /** Keeping distributes over concatenation, so order is preserved. */
  lemma {:induction false} KeptAppend(a: seq<string>, b: seq<string>)
    ensures Kept(a + b) == Kept(a) + Kept(b)
    decreases |b|
  {
    if b != [] {
      var b' := b[..|b| - 1];
      assert (a + b)[..|a + b| - 1] == a + b';
      KeptAppend(a, b');
    } else {
      assert a + b == a;
    }
  }

  /** Every non-empty result is kept as often as it occurs, and nothing else. */
  lemma {:induction false} KeptCounts(rs: seq<string>, x: string)
    ensures multiset(Kept(rs))[x] == if x == "" then 0 else multiset(rs)[x]
  {
    if rs != [] {
      var init := rs[..|rs| - 1];
      KeptCounts(init, x);
      assert rs == init + [rs[|rs| - 1]];
    }
  }

  lemma KeptMembers(rs: seq<string>, x: string)
    ensures x in Kept(rs) <==> x in rs && x != ""
  {
    KeptCounts(rs, x);
  }

  /** How the collection loop ends: with the list of non-empty final URLs, or with the
      process stopped at the URL whose resolution did not return. */
  datatype Collection =
    | Collected(furls: seq<string>)
    | Stopped(at: nat, cause: Outcome)

  /** The loop at main.go:163-172, with the response to the k-th request given as
      `fetches[k]`. */
  method Collect(urls: seq<string>, fetches: seq<Fetch>) returns (c: Collection)
    requires |fetches| == |urls|
    ensures c.Collected? <==> forall k :: 0 <= k < |urls| ==> GetFinalUrl(urls[k], fetches[k]).Returned?
    ensures c.Collected? ==> c.furls == Kept(FinalUrls(urls, fetches))
    ensures c.Stopped? ==>
              && c.at < |urls|
              && c.cause == GetFinalUrl(urls[c.at], fetches[c.at])
              && !c.cause.Returned?
              && forall k :: 0 <= k < c.at ==> GetFinalUrl(urls[k], fetches[k]).Returned?
  {
    ghost var finals := FinalUrls(urls, fetches);
    var furls: seq<string> := [];
    var i := 0;
    while i < |urls|
      invariant 0 <= i <= |urls|
      invariant forall k :: 0 <= k < i ==> GetFinalUrl(urls[k], fetches[k]).Returned?
      invariant furls == Kept(finals[..i])
    {
      var r := GetFinalUrl(urls[i], fetches[i]);
      if !r.Returned? {
        return Stopped(i, r);
      }
      var fu, err := r.finalUrl, r.err;
      if err.Some? {
        // the log.Fatalf at main.go:165-167 cannot be reached
        assert false;
      }
      assert finals[..i + 1] == finals[..i] + [fu];
      if fu != "" {
        furls := furls + [fu];
      }
      i := i + 1;
    }
    assert finals[..i] == finals;
    return Collected(furls);
  }

  /** `sort.StringSlice.Swap`. */
  method Swap(a: array<string>, i: nat, j: nat)
    requires i < a.Length && j < a.Length
    modifies a
    ensures a[i] == old(a[j]) && a[j] == old(a[i])
    ensures forall m :: 0 <= m < a.Length && m != i && m != j ==> a[m] == old(a[m])
    ensures multiset(a[..]) == multiset(old(a[..]))
  {
    a[i], a[j] := a[j], a[i];
  }

  /** `sort.Sort` on a `sort.StringSlice`, here by insertion: afterwards the array is
      in ascending order and holds the same strings as many times as before. */
  method SortStrings(a: array<string>)
    modifies a
    ensures Sorted(a[..])
    ensures multiset(a[..]) == multiset(old(a[..]))
  {
    if a.Length < 2 {
      return;
    }
    var i := 1;
    while i < a.Length
      invariant 1 <= i <= a.Length
      invariant forall p, q :: 0 <= p < q < i ==> !Below(a[q], a[p])
      invariant multiset(a[..]) == multiset(old(a[..]))
    {
      var j := i;
      while j > 0 && Below(a[j], a[j - 1])
        invariant 0 <= j <= i
        invariant forall p, q :: 0 <= p < q <= i && p != j && q != j ==> !Below(a[q], a[p])
        invariant forall q :: j < q <= i ==> Below(a[j], a[q])
        invariant multiset(a[..]) == multiset(old(a[..]))
      {
        Swap(a, j - 1, j);
        j := j - 1;
      }
      forall p | 0 <= p < j
        ensures !Below(a[j], a[p])
      {
        if p < j - 1 {
          NotBelowTransitive(a[p], a[j - 1], a[j]);
        }
      }
      forall q | j < q <= i
        ensures !Below(a[q], a[j])
      {
        BelowAsymmetric(a[j], a[q]);
      }
      i := i + 1;
    }
  }

  lemma NotBelowTransitive(x: string, y: string, z: string)
    requires !Below(y, x) && !Below(z, y)
    ensures !Below(z, x)
  {
    BelowTotal(x, y);
    BelowTotal(y, z);
    if Below(z, x) {
      if x != y && y != z {
        BelowTransitive(x, y, z);
        BelowAsymmetric(x, z);
      }
    }
  }

  /** `set.Uniq` from github.com/xtgo/set on sorted data: swaps the first copy of
      each distinct string to the front and returns how many there are. */
  method Uniq(a: array<string>) returns (n: nat)
    requires Sorted(a[..])
    modifies a
    ensures n <= a.Length
    ensures StrictlyAscending(a[..n])
    ensures forall x :: x in a[..n] <==> x in old(a[..])
    ensures multiset(a[..]) == multiset(old(a[..]))
  {
    var l := a.Length;
    if l <= 1 {
      return l;
    }
    ghost var a0 := a[..];
    var p := 0;
    for i := 1 to l
      invariant 0 <= p < i
      invariant AdjacentAscending(a[..p + 1])
      invariant forall x :: x in a[..p + 1] <==> x in a0[..i]
      invariant a[p] == a0[i - 1]
      invariant forall k :: i <= k < l ==> a[k] == a0[k]
      invariant multiset(a[..]) == multiset(a0)
    {
      if !Below(a[p], a[i]) {
        BelowTotal(a0[i - 1], a0[i]);
        assert a[..p + 1][p] == a0[i];
        MembersExtend(a[..p + 1], a[..p + 1], a0, i);
        continue;
      }
      ghost var front := a[..p + 1];
      p := p + 1;
      if p < i {
        Swap(a, p, i);
      }
      assert a[..p + 1] == front + [a0[i]];
      MembersExtend(front, a[..p + 1], a0, i);
    }
    AdjacentGivesStrict(a[..p + 1]);
    assert a0[..l] == a0;
    n := p + 1;
  }

  /** The distinct prefix keeps the same strings as the scanned input when the next
      input string is either appended to it or already in it. */
  lemma MembersExtend(front: seq<string>, ext: seq<string>, a0: seq<string>, i: nat)
    requires i < |a0|
    requires forall x :: x in front <==> x in a0[..i]
    requires ext == front + [a0[i]] || (ext == front && a0[i] in front)
    ensures forall x :: x in ext <==> x in a0[..i + 1]
  {
    assert a0[..i + 1] == a0[..i] + [a0[i]];
  }

  /** main.go:174-177: sort the collected URLs, compact the duplicates and cut the
      slice to the distinct ones. */
  method SortAndUniq(furls: seq<string>) returns (data: seq<string>)
    ensures StrictlyAscending(data)
    ensures forall x :: x in data <==> x in furls
    ensures |data| <= |furls|
  {
    var a := new string[|furls|](k requires 0 <= k < |furls| => furls[k]);
    assert a[..] == furls;
    SortStrings(a);
    ghost var sorted := a[..];
    forall x
      ensures x in sorted <==> x in furls
    {
      assert x in sorted <==> x in multiset(sorted);
      assert x in furls <==> x in multiset(furls);
    }
    var n := Uniq(a);
    data := a[..n];
  }
}
