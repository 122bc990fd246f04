/**
  The run of `main` after the input file has been read (main.go:163-180): resolve each
  URL, assemble the sorted list of distinct final URLs and produce the text of the
  output file.
 */
module Pipeline {

  import opened Lex
  import opened Redirect
  import opened Results
  import opened Output

  /** How a run ends: the result list and the text written for it, or the process
      stopped while resolving the URL at index `at`. */
  datatype Run =
    | Written(results: seq<string>, text: string)
    | Exited(at: nat, cause: Outcome)

  /** A strictly ascending list has one entry per distinct element. */
  lemma {:induction false} AscendingCount(s: seq<string>)
    requires StrictlyAscending(s)
    ensures |set x | x in s| == |s|
  {
    if s != [] {
      AscendingCount(s[1..]);
      forall j | 1 <= j < |s|
        ensures s[j] != s[0]
      {
        StrictHasNoDuplicates(s, 0, j);
      }
      assert (set x | x in s) == {s[0]} + (set x | x in s[1..]);
    }
  }

  /** No input URL and no final request URL holds a newline: input URLs are lines of
      the input file, and a URL's text form never holds a raw newline. */
  predicate NewlineFree(urls: seq<string>, fetches: seq<Fetch>)
  {
    && (forall k :: 0 <= k < |urls| ==> '\n' !in urls[k])
    && (forall k :: 0 <= k < |fetches| && fetches[k].Received? ==>
          '\n' !in fetches[k].response.requestUrl)
  }

  /** A final URL holds a newline only if the input URL or the request URL does. */
  lemma FinalUrlNoNewline(url: string, fetch: Fetch)
    requires '\n' !in url
    requires fetch.Received? ==> '\n' !in fetch.response.requestUrl
    ensures '\n' !in FinalUrlOf(GetFinalUrl(url, fetch))
  {
  }

  /** main.go:163-180 with the k-th HTTP exchange given as `fetches[k]`. */
  method RunAll(urls: seq<string>, fetches: seq<Fetch>) returns (r: Run)
    requires |fetches| == |urls|
    ensures r.Written? <==> forall k :: 0 <= k < |urls| ==> GetFinalUrl(urls[k], fetches[k]).Returned?
    ensures r.Written? ==> StrictlyAscending(r.results)
    ensures r.Written? ==>
              forall x :: x in r.results <==> x in FinalUrls(urls, fetches) && x != ""
    ensures r.Written? ==>
              |r.results| == |set x | x in FinalUrls(urls, fetches) && x != ""|
    ensures r.Written? ==> r.text == CsvText(r.results)
    ensures r.Written? ==>
              (r.text == "NA" <==> forall k :: 0 <= k < |urls| ==> FinalUrls(urls, fetches)[k] == "")
    ensures r.Exited? ==>
              && r.at < |urls|
              && r.cause == GetFinalUrl(urls[r.at], fetches[r.at])
              && !r.cause.Returned?
              && forall k :: 0 <= k < r.at ==> GetFinalUrl(urls[k], fetches[k]).Returned?
    ensures r.Written? && NewlineFree(urls, fetches) ==> ReadResults(r.text) == r.results
  {
    var c := Collect(urls, fetches);
    if c.Stopped? {
      return Exited(c.at, c.cause);
    }
    var data := SortAndUniq(c.furls);
    ghost var finals := FinalUrls(urls, fetches);
    forall x
      ensures x in data <==> x in finals && x != ""
    {
      KeptMembers(finals, x);
    }
    AscendingCount(data);
    assert (set x | x in data) == (set x | x in finals && x != "");
    if data == [] {
      forall k | 0 <= k < |urls|
        ensures finals[k] == ""
      {
        assert finals[k] in finals;
      }
    }
    if NewlineFree(urls, fetches) {
      forall i | 0 <= i < |data|
        ensures '\n' !in data[i]
      {
        assert data[i] in finals;
        var k :| 0 <= k < |finals| && finals[k] == data[i];
        FinalUrlNoNewline(urls[k], fetches[k]);
      }
      ReadResultsRoundTrip(data);
    }
    r := Written(data, CsvText(data));
  }
}
