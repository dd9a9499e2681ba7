/**
  The two network helpers of the terminal with their I/O replaced by
  oracles: `queryAI`, which asks the chat-completion endpoint and turns a
  failure into text, and `fetchArxivPapers`, which pulls paper titles out
  of the arXiv search feed with the pattern `<title>[^<]+`.
 */
module Assistant {
  import opened Wrappers
  import opened Text

  /** What one chat-completion request yields: the text of the first
      choice, or the message of whatever the request threw. */
  datatype AiReply = Answered(content: string) | Failed(message: string)

  /** The chat-completion endpoint, given the user prompt and the context
      that `queryAI` splices into its fixed system prompt. */
  type AiOracle = (string, string) -> AiReply

  /** An HTTP GET of a URL: the response body, or `None` when `fetch` or
      `response.text()` rejects. */
  type FetchOracle = string -> Option<string>

  const AiErrorPrefix: string := "AI Error: "

  /** `queryAI(prompt, context)`: the answer's text, or the failure turned
      into `"AI Error: <message>"`; it never throws to its caller. */
  function QueryAI(ai: AiOracle, prompt: string, context: string): (r: string)
    ensures ai(prompt, context).Answered? ==> r == ai(prompt, context).content
    ensures ai(prompt, context).Failed? ==>
              |r| >= |AiErrorPrefix| && r[..|AiErrorPrefix|] == AiErrorPrefix
              && r[|AiErrorPrefix|..] == ai(prompt, context).message
  {
    match ai(prompt, context)
    case Answered(content) => content
    case Failed(message) => AiErrorPrefix + message
  }

  const TitleTag: string := "<title>"
  const ArxivError: string := "arXiv API Error"

  const ArxivBase: string := "https://export.arxiv.org/api/query?search_query=all:"

  /** The search URL, with the query spliced in unescaped: the fixed base,
      then the query character for character. */
  function ArxivUrl(query: string): (url: string)
    ensures |url| == |ArxivBase| + |query|
    ensures url[..|ArxivBase|] == ArxivBase && url[|ArxivBase|..] == query
  {
    ArxivBase + query
  }

  /** The pattern `<title>[^<]+` matches starting at position `i`: the tag,
      then at least one character that is not `<`. */
  predicate TitleStartsAt(s: string, i: nat) {
    i + |TitleTag| < |s| && s[i..i + |TitleTag|] == TitleTag && s[i + |TitleTag|] != '<'
  }

  /** Where the greedy `[^<]+` stops when it starts at `j`: the first `<`
      at or after `j`, or the end of the text. */
  function RunEnd(s: string, j: nat): (e: nat)
    requires j <= |s|
    ensures j <= e <= |s|
    ensures '<' !in s[j..e]
    ensures e < |s| ==> s[e] == '<'
    decreases |s| - j
  {
    if j == |s| || s[j] == '<' then j else RunEnd(s, j + 1)
  }

  /** One matched element: the tag and a non-empty run free of `<`. */
  predicate IsTitleMatch(m: string) {
    |m| > |TitleTag| && m[..|TitleTag|] == TitleTag && '<' !in m[|TitleTag|..]
  }

  /** Where one match lies in the text: `s[start..end]`. */
  datatype Span = Span(start: nat, end: nat)

  /** A greedy match of `<title>[^<]+` at `m.start`: the pattern starts
      there, the run after the tag is free of `<`, and it stops only at a
      `<` or at the end of the text. */
  predicate GreedyMatchAt(s: string, m: Span) {
    && TitleStartsAt(s, m.start)
    && m.start + |TitleTag| < m.end <= |s|
    && '<' !in s[m.start + |TitleTag|..m.end]
    && (m.end == |s| || s[m.end] == '<')
  }

  /** The pattern starts nowhere in `[a, b)`. */
  predicate NoTitleIn(s: string, a: nat, b: nat) {
    forall p :: a <= p < b ==> !TitleStartsAt(s, p)
  }

  /** What a global search from `i` must find: no match starts before the
      first one, which is greedy; the search for the rest begins where it
      ends, so the matches come in increasing order without overlap; with
      no match left, the pattern starts nowhere after `i`. */
  predicate LeftmostGreedy(s: string, i: nat, sp: seq<Span>)
    decreases |sp|
  {
    if |sp| == 0 then i <= |s| && NoTitleIn(s, i, |s|)
    else
      && i <= sp[0].start && NoTitleIn(s, i, sp[0].start)
      && GreedyMatchAt(s, sp[0])
      && LeftmostGreedy(s, sp[0].end, sp[1..])
  }

  /** The positions of `s.match(/<title>[^<]+/g)` scanning left to right
      from `i`: at each position either a match starts, and scanning
      resumes where it ends, or scanning moves on by one character. */
  function Spans(s: string, i: nat): (sp: seq<Span>)
    requires i <= |s|
    ensures LeftmostGreedy(s, i, sp)
    ensures forall k :: 0 <= k < |sp| ==> GreedyMatchAt(s, sp[k])
    decreases |s| - i
  {
    if i == |s| then []
    else if TitleStartsAt(s, i) then
      var e := RunEnd(s, i + |TitleTag| + 1);
      assert s[i + |TitleTag|..e] == [s[i + |TitleTag|]] + s[i + |TitleTag| + 1..e];
      var sp := [Span(i, e)] + Spans(s, e);
      assert sp[1..] == Spans(s, e);
      sp
    else
      var sp := Spans(s, i + 1);
      assert |sp| > 0 ==> i < sp[0].start;
      sp
  }

  /** A greedy run can end in one place only. */
  lemma {:induction false} GreedyRunEnd(s: string, j: nat, e: nat)
    requires j <= e <= |s| && '<' !in s[j..e] && (e == |s| || s[e] == '<')
    ensures e == RunEnd(s, j)
    decreases e - j
  {
    if j < e {
      assert s[j] == s[j..e][0];
      assert s[j + 1..e] == s[j..e][1..];
      GreedyRunEnd(s, j + 1, e);
    }
  }

  /** No match anywhere: the search finds nothing. */
  lemma EmptyStep(s: string, i: nat)
    requires i <= |s| && NoTitleIn(s, i, |s|)
    ensures Spans(s, i) == []
  {
  }

  /** A first match beyond `i`: nothing starts at `i`, and the search may
      begin one character later. */
  lemma SkipStep(s: string, i: nat, sp: seq<Span>)
    requires i <= |s| && |sp| > 0 && sp[0].start > i && LeftmostGreedy(s, i, sp)
    ensures i < |s| && Spans(s, i) == Spans(s, i + 1)
    ensures LeftmostGreedy(s, i + 1, sp)
  {
    assert !TitleStartsAt(s, i);
  }

  /** A first match at `i`: it is the one `Spans` finds, and the rest is a
      search from its end. */
  lemma MatchStep(s: string, i: nat, sp: seq<Span>)
    requires |sp| > 0 && sp[0].start == i && LeftmostGreedy(s, i, sp)
    ensures i < |s| && sp[0].end <= |s|
    ensures Spans(s, i) == [sp[0]] + Spans(s, sp[0].end)
    ensures LeftmostGreedy(s, sp[0].end, sp[1..])
  {
    var m := sp[0];
    var j := i + |TitleTag| + 1;
    assert s[j..m.end] == s[i + |TitleTag|..m.end][1..];
    GreedyRunEnd(s, j, m.end);
  }

  /** The leftmost-greedy conditions pin the search result down:
      `Spans` is the only sequence of positions meeting them. */
  lemma {:induction false} SpansUnique(s: string, i: nat, sp: seq<Span>)
    requires i <= |s| && LeftmostGreedy(s, i, sp)
    ensures sp == Spans(s, i)
    decreases |s| - i
  {
    if |sp| == 0 {
      EmptyStep(s, i);
    } else if sp[0].start > i {
      SkipStep(s, i, sp);
      SpansUnique(s, i + 1, sp);
    } else {
      MatchStep(s, i, sp);
      SpansUnique(s, sp[0].end, sp[1..]);
      assert sp == [sp[0]] + sp[1..];
    }
  }

  /** The matches of a search from `i` lie at or after `i`, each one
      ending before the next begins. */
  lemma {:induction false} LeftmostGreedyOrdered(s: string, i: nat, sp: seq<Span>)
    requires LeftmostGreedy(s, i, sp)
    ensures forall k :: 0 <= k < |sp| ==> i <= sp[k].start < sp[k].end
    ensures forall k :: 0 <= k < |sp| - 1 ==> sp[k].end <= sp[k + 1].start
    decreases |sp|
  {
    if |sp| > 0 {
      LeftmostGreedyOrdered(s, sp[0].end, sp[1..]);
      assert forall k :: 1 <= k < |sp| ==> sp[k] == sp[1..][k - 1];
    }
  }

  /** The two halves of a slice of a slice. */
  lemma SliceOfSlice(s: string, a: nat, b: nat, c: nat)
    requires a + c <= b <= |s|
    ensures s[a..b][..c] == s[a..a + c] && s[a..b][c..] == s[a + c..b]
  {
  }

  /** The text of one match. */
  function MatchText(s: string, m: Span): (t: string)
    requires GreedyMatchAt(s, m)
    ensures IsTitleMatch(t)
  {
    SliceOfSlice(s, m.start, m.end, |TitleTag|);
    s[m.start..m.end]
  }

  /** The matched texts of `s.match(/<title>[^<]+/g)` from `i`: the text
      of the feed at each leftmost-greedy position, in order. */
  function Scan(s: string, i: nat): (ms: seq<string>)
    requires i <= |s|
    ensures forall k :: 0 <= k < |ms| ==> IsTitleMatch(ms[k])
  {
    var sp := Spans(s, i);
    seq(|sp|, k requires 0 <= k < |sp| => MatchText(s, sp[k]))
  }

  /** Each matched text is the feed's text at the corresponding
      leftmost-greedy position, so the scan invents nothing. */
  lemma ScanAtSpans(s: string, i: nat)
    requires i <= |s|
    ensures |Scan(s, i)| == |Spans(s, i)|
    ensures forall k :: 0 <= k < |Scan(s, i)| ==>
              Scan(s, i)[k] == s[Spans(s, i)[k].start..Spans(s, i)[k].end]
  {
  }

  /** The scan finds nothing exactly when the pattern starts nowhere. */
  lemma ScanEmptyIff(s: string, i: nat)
    requires i <= |s|
    ensures Scan(s, i) == [] <==> forall k :: i <= k < |s| ==> !TitleStartsAt(s, k)
  {
    var sp := Spans(s, i);
    if |sp| > 0 {
      assert TitleStartsAt(s, sp[0].start) && sp[0].start < |s|;
      assert |Scan(s, i)| > 0;
    }
  }

  /** `t.replace('<title>', '')` on a match: what follows the tag. */
  function StripTag(m: string): (t: string)
    requires IsTitleMatch(m)
    ensures t != "" && '<' !in t
    ensures m == TitleTag + t
  {
    assert OccursAt(m, TitleTag, 0);
    ReplaceFirst(m, TitleTag, "")
  }

  /** `.slice(1, 6).map(strip)` on the list of matches: the second to the
      sixth match, tag removed, or `None` when there is no match at all and
      `match` returns `null`. */
  function PaperTitles(body: string): (r: Option<seq<string>>)
    ensures r.None? <==> Scan(body, 0) == []
    ensures r.Some? ==> var ms := Scan(body, 0);
              && |r.value| == (if |ms| < 6 then |ms| - 1 else 5)
              && forall k :: 0 <= k < |r.value| ==> ms[k + 1] == TitleTag + r.value[k]
    ensures r.Some? ==> forall k :: 0 <= k < |r.value| ==> r.value[k] != "" && '<' !in r.value[k]
  {
    var ms := Scan(body, 0);
    if ms == [] then None
    else
      var picked := ms[1..if |ms| < 6 then |ms| else 6];
      Some(seq(|picked|, k requires 0 <= k < |picked| => StripTag(picked[k])))
  }

  /** `fetchArxivPapers(query)`. */
  function FetchArxivPapers(fetch: FetchOracle, query: string): string {
    match fetch(ArxivUrl(query))
    case None => ArxivError
    case Some(body) =>
      match PaperTitles(body)
      case None => ArxivError
      case Some(titles) => Join(titles, "\n")
  }

  /** The sentinel when the request fails or the feed holds no title match;
      the empty string for exactly one match; otherwise the second to sixth
      titles joined by newlines. */
  lemma FetchArxivPapersCases(fetch: FetchOracle, query: string)
    ensures fetch(ArxivUrl(query)).None? ==> FetchArxivPapers(fetch, query) == ArxivError
    ensures fetch(ArxivUrl(query)).Some? ==>
              var body := fetch(ArxivUrl(query)).value;
              var r := FetchArxivPapers(fetch, query);
              && (Scan(body, 0) == [] ==> r == ArxivError)
              && (|Scan(body, 0)| == 1 ==> r == "")
              && (Scan(body, 0) != [] ==> r == Join(PaperTitles(body).value, "\n"))
  {
  }

  /** A feed whose text holds no `<title>` followed by a character other
      than `<` yields the sentinel. */
  lemma NoTitleGivesSentinel(fetch: FetchOracle, query: string)
    requires fetch(ArxivUrl(query)).Some?
    requires forall k :: 0 <= k < |fetch(ArxivUrl(query)).value| ==> !TitleStartsAt(fetch(ArxivUrl(query)).value, k)
    ensures FetchArxivPapers(fetch, query) == ArxivError
  {
    ScanEmptyIff(fetch(ArxivUrl(query)).value, 0);
    FetchArxivPapersCases(fetch, query);
  }
}
