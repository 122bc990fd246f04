/**
  The text `writeResultsToCsv` puts in the output file (main.go:132-138): each result
  followed by a newline, or the two characters `NA` when there is no result. Creating,
  writing and closing the file are not modelled.
 */
module Output {

  import opened Text

  /** Each entry followed by `"\n"`, in list order. */
  function Lines(rs: seq<string>): (t: string)
    ensures rs != [] ==> |t| > 0 && t[|t| - 1] == '\n'
  {
    if rs == [] then "" else rs[0] + "\n" + Lines(rs[1..])
  }

  /** The whole content of the output file. */
  function CsvText(rs: seq<string>): (t: string)
    ensures t == "NA" <==> rs == []
    ensures rs != [] ==> |t| > 0 && t[|t| - 1] == '\n'
  {
    if |rs| != 0 then Lines(rs) else "NA"
  }

  /** Reading a file back line by line: the pieces between newlines, a last piece
      without a newline counting as a line. */
  function SplitLines(t: string): (ls: seq<string>)
    decreases |t|
  {
    if t == [] then []
    else
      var e := LineEnd(t, 0);
      if e == |t| then [t] else [t[..e]] + SplitLines(t[e + 1..])
  }

  /** Reading the output file back into a result list. */
  function ReadResults(t: string): (rs: seq<string>)
  {
    if t == "NA" then [] else SplitLines(t)
  }

  predicate NoNewlines(rs: seq<string>)
  {
    forall i :: 0 <= i < |rs| ==> '\n' !in rs[i]
  }

  /** The first line of a text is everything up to its first newline. */
  lemma SplitFirstLine(a: string, rest: string)
    requires '\n' !in a
    ensures SplitLines(a + "\n" + rest) == [a] + SplitLines(rest)
  {
    var t := a + "\n" + rest;
    assert t[|a|] == '\n';
    forall m | 0 <= m < |a|
      ensures t[m] != '\n'
    {
      assert t[m] == a[m];
    }
    assert LineEnd(t, 0) == |a|;
    assert t[..|a|] == a;
    assert t[|a| + 1..] == rest;
  }

  lemma {:induction false} SplitLinesOfLines(rs: seq<string>)
    requires NoNewlines(rs)
    ensures SplitLines(Lines(rs)) == rs
  {
    if rs != [] {
      assert '\n' !in rs[0];
      SplitFirstLine(rs[0], Lines(rs[1..]));
      assert NoNewlines(rs[1..]) by {
        forall i | 0 <= i < |rs| - 1
          ensures '\n' !in rs[1..][i]
        {
          assert rs[1..][i] == rs[i + 1];
        }
      }
      SplitLinesOfLines(rs[1..]);
    }
  }

  /** The file determines the results written to it, provided no result holds a
      newline (`Pipeline.RunAll` shows this for newline-free input URLs and request
      URLs). */
  lemma ReadResultsRoundTrip(rs: seq<string>)
    requires NoNewlines(rs)
    ensures ReadResults(CsvText(rs)) == rs
  {
    if rs != [] {
      SplitLinesOfLines(rs);
    }
  }

  /** Different newline-free result lists give different files. */
  lemma CsvTextInjective(rs: seq<string>, qs: seq<string>)
    requires NoNewlines(rs) && NoNewlines(qs)
    requires CsvText(rs) == CsvText(qs)
    ensures rs == qs
  {
    ReadResultsRoundTrip(rs);
    ReadResultsRoundTrip(qs);
  }
}
