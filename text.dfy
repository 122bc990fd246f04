/** Lines of text: where the line that contains a position ends. Shared by the
    regular-expression model (`.` never matches a newline) and by the result file. */
module Text {

  predicate NoNewline(s: string, lo: nat, hi: nat)
    requires lo <= hi <= |s|
  {
    forall m :: lo <= m < hi ==> s[m] != '\n'
  }

  /** Index of the first newline at or after `k`, or the end of `s`. */
  function LineEnd(s: string, k: nat): (e: nat)
    requires k <= |s|
    ensures k <= e <= |s|
    ensures e < |s| ==> s[e] == '\n'
    ensures NoNewline(s, k, e)
    decreases |s| - k
  {
    if k == |s| || s[k] == '\n' then k else LineEnd(s, k + 1)
  }
}
