/**
  The decision `getFinalURL` makes once a response has arrived: the URL a 200
  response was finally fetched from, or, for a 403 page that redirects from script,
  the input URL followed by the path given to `window.location.replace('…')`.

  The HTTP exchange itself is a parameter (`Fetch`): either the transport failed or a
  response arrived with a status, a body that could or could not be read, and the
  URL of the request the client ended on after following redirects.

  The regular expression `window.location.replace\(\'(.*)\'\)` is modelled by one
  concrete leftmost-first search (`FindFrom`) and a declarative description of its
  matches (`MatchSpan`, `LeftmostFirst`), which `FindFromSpec` proves the search meets.
 */
module Redirect {

  import opened Text

  datatype Option<T> = None | Some(value: T)

  datatype Body = Readable(text: string) | Unreadable

  datatype Response = Response(status: int, body: Body, requestUrl: string)

  datatype Fetch = TransportFailure | Received(response: Response)

  /** How a call of `getFinalURL` ends: it returns a final URL (possibly empty) and
      an error value, or it stops the process, either through `log.Fatalf` when a 403
      body cannot be read or through a run-time panic when the regular expression
      finds no match and the missing submatch is indexed. */
  datatype Outcome =
    | Returned(finalUrl: string, err: Option<string>)
    | FatalBodyRead
    | PanicNilMatch

  /** The literal searched for before the regular expression is tried. */
  const Literal := "window.location.replace"

  /** Length of the fixed part `window.location.replace('` of the pattern, up to the
      captured group. */
  const HeadLength := 25

  predicate OccursAt(s: string, lit: string, i: nat)
  {
    i + |lit| <= |s| && s[i..i + |lit|] == lit
  }

  /** `strings.Contains(s, lit)`. */
  predicate Contains(s: string, lit: string)
  {
    exists i | 0 <= i <= |s| :: OccursAt(s, lit, i)
  }

  /** `Contains` is substring search: the text splits into some prefix, the literal
      and some suffix. */
  lemma ContainsSubstring(s: string, lit: string)
    ensures Contains(s, lit) <==> exists pre, post :: s == pre + lit + post
  {
    if Contains(s, lit) {
      var i :| 0 <= i <= |s| && OccursAt(s, lit, i);
      assert s == s[..i] + lit + s[i + |lit|..];
    }
    if exists pre, post :: s == pre + lit + post {
      var pre, post :| s == pre + lit + post;
      assert OccursAt(s, lit, |pre|);
    }
  }

  /** The pattern's fixed head `window.location.replace\(\'`, as a 25-character text:
      both unescaped dots match any character except a newline. */
  predicate IsHead(h: string)
  {
    && |h| == HeadLength
    && h[..6] == "window"
    && h[6] != '\n'
    && h[7..15] == "location"
    && h[15] != '\n'
    && h[16..] == "replace('"
  }

  /** The pattern's fixed head matches at `i`. */
  predicate HeadAt(s: string, i: nat)
  {
    i + HeadLength <= |s| && IsHead(s[i..i + HeadLength])
  }

  /** The pattern's closing `')` starts at `j`. */
  predicate CloseAt(s: string, j: nat)
  {
    j + 2 <= |s| && s[j] == '\'' && s[j + 1] == ')'
  }

  /** A match of the whole pattern starting at `i` whose group `(.*)` ends at `j`
      (the group never spans a newline). */
  predicate MatchSpan(s: string, i: nat, j: nat)
  {
    HeadAt(s, i) && i + HeadLength <= j && CloseAt(s, j) && NoNewline(s, i + HeadLength, j)
  }

  ghost predicate MatchesAt(s: string, i: nat)
  {
    exists j: nat :: MatchSpan(s, i, j)
  }

  /** Where a match starts and where its captured group ends. */
  datatype Span = Span(start: nat, end: nat)

  /** The match a leftmost-first engine such as Go's RE2 reports among those starting
      at `i` or later: the earliest start, and from there the longest group `.*`. */
  ghost predicate FirstFrom(s: string, i: nat, sp: Span)
  {
    && i <= sp.start
    && MatchSpan(s, sp.start, sp.end)
    && (forall k :: i <= k < sp.start ==> !MatchesAt(s, k))
    && (forall j :: sp.end < j ==> !MatchSpan(s, sp.start, j))
  }

  ghost predicate LeftmostFirst(s: string, sp: Span)
  {
    FirstFrom(s, 0, sp)
  }

  /** The text of the group `(.*)` of a match. */
  function Capture(s: string, sp: Span): (c: string)
    requires MatchSpan(s, sp.start, sp.end)
    ensures '\n' !in c
  {
    s[sp.start + HeadLength..sp.end]
  }

  /** The last `')` lying wholly in `s[lo..hi]`. */
  function LastClose(s: string, lo: nat, hi: nat): (r: Option<nat>)
    requires lo <= hi <= |s|
    ensures r.Some? ==> lo <= r.value && r.value + 2 <= hi && CloseAt(s, r.value)
    ensures r.Some? ==> forall j :: r.value < j && j + 2 <= hi ==> !CloseAt(s, j)
    ensures r.None? ==> forall j :: lo <= j && j + 2 <= hi ==> !CloseAt(s, j)
    decreases hi - lo
  {
    if hi < lo + 2 then None
    else if CloseAt(s, hi - 2) then Some(hi - 2)
    else LastClose(s, lo, hi - 1)
  }

  /** The search for the first match starting at `i` or later: try each start in
      turn; where the head matches, take the last `')` on the same line. */
  function FindFrom(s: string, i: nat): (r: Option<Span>)
    requires i <= |s|
    ensures r.Some? ==> i <= r.value.start && MatchSpan(s, r.value.start, r.value.end)
    decreases |s| - i
  {
    if i + HeadLength > |s| then None
    else if HeadAt(s, i) then
      match LastClose(s, i + HeadLength, LineEnd(s, i + HeadLength))
      case Some(j) => Some(Span(i, j))
      case None => FindFrom(s, i + 1)
    else FindFrom(s, i + 1)
  }

  /** `FindStringSubmatch` reduced to what is used of it: the first group of the
      first match, or nothing (Go's nil) when there is no match. */
  function FindSubmatch(s: string): (r: Option<string>)
  {
    match FindFrom(s, 0)
    case None => None
    case Some(sp) => Some(Capture(s, sp))
  }

  /** The submatch is nil exactly when the pattern matches nowhere; otherwise it is
      the group of the leftmost-first match, which holds no newline. */
  lemma FindSubmatchSpec(s: string)
    ensures FindSubmatch(s).None? <==> forall k :: !MatchesAt(s, k)
    ensures FindSubmatch(s).Some? ==>
              exists sp :: LeftmostFirst(s, sp) && FindSubmatch(s).value == Capture(s, sp)
    ensures FindSubmatch(s).Some? ==> '\n' !in FindSubmatch(s).value
  {
    FindFromSpec(s, 0);
  }

  /** A match never reaches past the end of the line it starts its group on. */
  lemma MatchWithinLine(s: string, i: nat, j: nat)
    requires MatchSpan(s, i, j)
    ensures j + 2 <= LineEnd(s, i + HeadLength)
  {
    assert s[j] != '\n' && s[j + 1] != '\n';
  }

  /** Where the head matches at `i`, the last `')` on its line ends the longest
      match starting at `i`; where there is none, no match starts at `i`. */
  lemma HeadMatchSpec(s: string, i: nat)
    requires HeadAt(s, i)
    ensures match LastClose(s, i + HeadLength, LineEnd(s, i + HeadLength))
            case Some(j) => MatchSpan(s, i, j) && forall j' :: j < j' ==> !MatchSpan(s, i, j')
            case None => !MatchesAt(s, i)
  {
    var e := LineEnd(s, i + HeadLength);
    match LastClose(s, i + HeadLength, e)
    case Some(j) =>
      forall j' | j < j' && MatchSpan(s, i, j')
        ensures false
      {
        MatchWithinLine(s, i, j');
      }
    case None =>
      forall j | MatchSpan(s, i, j)
        ensures false
      {
        MatchWithinLine(s, i, j);
      }
  }

  /** The search finds exactly the leftmost-first match, and finds nothing only when
      no match exists. */
  lemma {:induction false} FindFromSpec(s: string, i: nat)
    requires i <= |s|
    ensures FindFrom(s, i).Some? ==> FirstFrom(s, i, FindFrom(s, i).value)
    ensures FindFrom(s, i).None? <==> forall k :: i <= k ==> !MatchesAt(s, k)
    decreases |s| - i
  {
    if i + HeadLength > |s| {
      forall k | i <= k
        ensures !MatchesAt(s, k)
      {
        assert !HeadAt(s, k);
      }
    } else {
      var found := HeadAt(s, i) && LastClose(s, i + HeadLength, LineEnd(s, i + HeadLength)).Some?;
      if HeadAt(s, i) {
        HeadMatchSpec(s, i);
      }
      if found {
        var j := LastClose(s, i + HeadLength, LineEnd(s, i + HeadLength)).value;
        assert FindFrom(s, i) == Some(Span(i, j));
        assert MatchSpan(s, i, j);
        assert MatchesAt(s, i);
      } else {
        assert FindFrom(s, i) == FindFrom(s, i + 1);
        assert !MatchesAt(s, i);
        FindFromSpec(s, i + 1);
        forall k | i <= k && FindFrom(s, i).None?
          ensures !MatchesAt(s, k)
        {
          if k != i {
            assert i + 1 <= k;
          }
        }
      }
    }
  }

  /** At most one match is the leftmost-first one. */
  lemma LeftmostFirstUnique(s: string, a: Span, b: Span)
    requires LeftmostFirst(s, a) && LeftmostFirst(s, b)
    ensures a == b
  {
    if a.start < b.start {
      assert MatchesAt(s, a.start);
    } else if b.start < a.start {
      assert MatchesAt(s, b.start);
    }
  }

  /** The part of `getFinalURL` that runs after the GET: main.go:90-122. */
  function GetFinalUrl(url: string, fetch: Fetch): (r: Outcome)
    ensures r.Returned? ==> r.err == None
    ensures fetch.TransportFailure? ==> r == Returned("", None)
    ensures fetch.Received? && fetch.response.status == 200 ==>
              r == Returned(fetch.response.requestUrl, None)
    ensures fetch.Received? && fetch.response.status != 200 && fetch.response.status != 403 ==>
              r == Returned("", None)
    ensures r.FatalBodyRead? <==>
              fetch.Received? && fetch.response.status == 403 && fetch.response.body.Unreadable?
    ensures r.PanicNilMatch? ==> fetch.Received? && fetch.response.status == 403
  {
    match fetch
    case TransportFailure => Returned("", None)
    case Received(resp) =>
      if resp.status == 403 then
        match resp.body
        case Unreadable => FatalBodyRead
        case Readable(text) =>
          if Contains(text, Literal) then
            match FindSubmatch(text)
            case None => PanicNilMatch
            case Some(path) => Returned(url + path, None)
          else Returned("", None)
      else if resp.status == 200 then Returned(resp.requestUrl, None)
      else Returned("", None)
  }

  /** On a readable 403 page without the exact literal the result is empty, even when
      the looser pattern would match. */
  lemma ForbiddenWithoutLiteral(url: string, resp: Response)
    requires resp.status == 403 && resp.body.Readable?
    requires !Contains(resp.body.text, Literal)
    ensures GetFinalUrl(url, Received(resp)) == Returned("", None)
  {
  }

  /** On a readable 403 page the call panics exactly when the literal is present but
      the pattern matches nowhere. */
  lemma ForbiddenPanics(url: string, resp: Response)
    requires resp.status == 403 && resp.body.Readable?
    ensures GetFinalUrl(url, Received(resp)) == PanicNilMatch <==>
              Contains(resp.body.text, Literal) && forall k :: !MatchesAt(resp.body.text, k)
  {
    FindFromSpec(resp.body.text, 0);
  }

  /** On a readable 403 page with the literal and a match, the result is the input
      URL followed by the group of the leftmost-first match, which holds no newline. */
  lemma ForbiddenResolves(url: string, resp: Response)
    requires resp.status == 403 && resp.body.Readable?
    requires Contains(resp.body.text, Literal)
    requires exists k :: MatchesAt(resp.body.text, k)
    ensures exists sp :: LeftmostFirst(resp.body.text, sp) &&
              GetFinalUrl(url, Received(resp)) == Returned(url + Capture(resp.body.text, sp), None)
    ensures GetFinalUrl(url, Received(resp)).Returned?
    ensures var r := GetFinalUrl(url, Received(resp));
              url <= r.finalUrl && '\n' !in r.finalUrl[|url|..]
  {
    var text := resp.body.text;
    FindFromSpec(text, 0);
    var sp := FindFrom(text, 0).value;
    assert LeftmostFirst(text, sp);
    assert (url + Capture(text, sp))[|url|..] == Capture(text, sp);
  }

  /** A page whose body is exactly `window.location.replace('<p>')` redirects to the
      input URL followed by `p`, whatever `p` holds apart from newlines. */
  lemma QuotedReplaceResolves(url: string, p: string, requestUrl: string)
    requires '\n' !in p
    ensures var body := "window.location.replace('" + p + "')";
      GetFinalUrl(url, Received(Response(403, Readable(body), requestUrl))) == Returned(url + p, None)
  {
    var s := "window.location.replace('" + p + "')";
    QuotedReplaceHead(p);
    QuotedReplaceMatch(p);
    assert Capture(s, Span(0, |s| - 2)) == p;
  }

  /** The body `window.location.replace('<p>')` holds the literal, and the pattern's
      head matches at its start. */
  lemma QuotedReplaceHead(p: string)
    ensures var s := "window.location.replace('" + p + "')";
      OccursAt(s, Literal, 0) && Contains(s, Literal) && HeadAt(s, 0)
  {
    var head := "window.location.replace('";
    var s := head + p + "')";
    assert s[..HeadLength] == head;
    HeadTextIsHead();
    assert s[..|Literal|] == head[..|Literal|] == Literal;
    assert OccursAt(s, Literal, 0);
  }

  /** The text `window.location.replace('` matches the pattern's head and starts with
      the literal. */
  lemma HeadTextIsHead()
    ensures IsHead("window.location.replace('")
  {
    var head := "window.location.replace('";
    assert head[..6] == ['w', 'i', 'n', 'd', 'o', 'w'];
    assert head[7..15] == ['l', 'o', 'c', 'a', 't', 'i', 'o', 'n'];
    assert head[16..] == ['r', 'e', 'p', 'l', 'a', 'c', 'e', '(', '\''];
  }

  /** In the body `window.location.replace('<p>')` the first match is the whole body. */
  lemma QuotedReplaceMatch(p: string)
    requires '\n' !in p
    ensures var s := "window.location.replace('" + p + "')";
      FindFrom(s, 0) == Some(Span(0, |s| - 2))
  {
    var s := "window.location.replace('" + p + "')";
    QuotedReplaceHead(p);
    var e := LineEnd(s, HeadLength);
    assert e == |s| by {
      assert forall m :: HeadLength <= m < |s| - 2 ==> s[m] == p[m - HeadLength];
    }
    assert CloseAt(s, |s| - 2);
    assert LastClose(s, HeadLength, e) == Some(|s| - 2);
  }

  /** A page that calls `window.location.replace` without a single quote anywhere,
      for instance with a double-quoted argument, makes the call panic. */
  lemma UnquotedReplacePanics(url: string, text: string, requestUrl: string)
    requires Contains(text, Literal) && '\'' !in text
    ensures GetFinalUrl(url, Received(Response(403, Readable(text), requestUrl))) == PanicNilMatch
  {
    ForbiddenPanics(url, Response(403, Readable(text), requestUrl));
  }
}
