/** Request shaping in the chat handler (`POST` in app/api/chat/route.ts):
    the caller's messages become a query and a role-mapped history, and the
    search hits for the query become one grounding-context string. The search
    itself is an opaque function of the index, the query and the hit limit. */
module ChatRequest {
  import opened Optional
  import opened Text
  import IndexCache
  import Indexer

  /** One message of the request body, `{ role, content }`. */
  datatype Message = Message(role: string, content: string)

  /** LangChain's `HumanMessage` and `AIMessage`. */
  datatype HistoryMessage = Human(text: string) | Ai(text: string)

  /** One search hit; only its document is read. */
  datatype Hit = Hit(document: Indexer.Record)

  /** `messages[messages.length - 1].content` on an empty list throws. */
  datatype RequestError = EmptyMessages

  /** `limit: 3` in the search call. */
  const HitLimit: nat := 3
  const HitSeparator: string := "\n---\n"
  const SourceLabel: string := "Source: "
  const ContentLabel: string := "\nContent: "

  /** The search over the restored index: the hits for a query, at most
      `limit` of them. */
  type Search = (IndexCache.Index, string, nat) -> seq<Hit>

  ghost predicate RespectsLimit(search: Search) {
    forall index, query :: |search(index, query, HitLimit)| <= HitLimit
  }

  /** `m.role === 'user' ? new HumanMessage(...) : new AIMessage(...)`. */
  function ToHistoryMessage(m: Message): (h: HistoryMessage)
    ensures h.text == m.content
    ensures h.Human? <==> m.role == "user"
  {
    if m.role == "user" then Human(m.content) else Ai(m.content)
  }

  /** `messages.slice(0, -1).map(...)`: every message but the last. */
  function History(messages: seq<Message>): (h: seq<HistoryMessage>)
    ensures |messages| > 0 ==> |h| == |messages| - 1
    ensures |messages| == 0 ==> h == []
    ensures forall k :: 0 <= k < |h| ==> h[k].text == messages[k].content
    ensures forall k :: 0 <= k < |h| ==> (h[k].Human? <==> messages[k].role == "user")
  {
    if |messages| <= 1 then []
    else History(messages[..|messages| - 1]) + [ToHistoryMessage(messages[|messages| - 2])]
  }

  /** The query and the history of a request, or the error the handler
      throws on an empty message list. */
  function Split(messages: seq<Message>): (r: Result<(string, seq<HistoryMessage>), RequestError>)
    ensures r.Failure? <==> |messages| == 0
    ensures r.Success? ==> r.value.0 == messages[|messages| - 1].content
    ensures r.Success? ==> r.value.1 == History(messages)
  {
    if |messages| == 0 then Failure(EmptyMessages)
    else Success((messages[|messages| - 1].content, History(messages)))
  }

  /** Splitting loses nothing: the history's texts followed by the query are
      the contents of the messages, in order. */
  lemma SplitKeepsContents(messages: seq<Message>)
    requires |messages| > 0
    ensures var (query, history) := Split(messages).value;
            seq(|history|, k requires 0 <= k < |history| => history[k].text) + [query]
              == seq(|messages|, k requires 0 <= k < |messages| => messages[k].content)
  {
    var (query, history) := Split(messages).value;
    var lhs := seq(|history|, k requires 0 <= k < |history| => history[k].text) + [query];
    var rhs := seq(|messages|, k requires 0 <= k < |messages| => messages[k].content);
    assert |lhs| == |rhs|;
    forall k | 0 <= k < |lhs|
      ensures lhs[k] == rhs[k]
    {
      if k < |history| {
        assert lhs[k] == history[k].text;
      }
    }
  }

  /** One hit as it appears in the context: the labelled title, then the
      labelled content, and nothing else. */
  function RenderHit(h: Hit): (r: string)
    ensures StartsWith(r, SourceLabel + h.document.title)
    ensures EndsWith(r, ContentLabel + h.document.content)
    ensures |r| == |SourceLabel| + |h.document.title| + |ContentLabel| + |h.document.content|
  {
    SourceLabel + h.document.title + ContentLabel + h.document.content
  }

  function RenderHits(hits: seq<Hit>): (r: seq<string>)
    ensures |r| == |hits|
    ensures forall k :: 0 <= k < |hits| ==> r[k] == RenderHit(hits[k])
  {
    if |hits| == 0 then [] else RenderHits(hits[..|hits| - 1]) + [RenderHit(hits[|hits| - 1])]
  }

  /** The hits rendered in order and joined by the separator. */
  function Grounding(hits: seq<Hit>): (c: string)
    ensures |hits| == 0 ==> c == ""
    ensures |hits| > 0 ==> StartsWith(c, RenderHit(hits[0]))
    ensures |hits| > 0 ==> EndsWith(c, RenderHit(hits[|hits| - 1]))
    ensures |hits| > 0 ==>
              |c| == TotalLength(RenderHits(hits)) + (|hits| - 1) * |HitSeparator|
  {
    var parts := RenderHits(hits);
    if |hits| == 0 then ""
    else
      JoinLength(parts, HitSeparator);
      JoinEnds(parts, HitSeparator);
      JoinWith(parts, HitSeparator)
  }

  /** Each further hit adds exactly one separator and its own block to the
      context of the hits before it. */
  lemma GroundingStep(hits: seq<Hit>)
    requires |hits| > 1
    ensures Grounding(hits) == Grounding(hits[..|hits| - 1]) + HitSeparator + RenderHit(hits[|hits| - 1])
  {
    var parts := RenderHits(hits);
    assert parts[..|parts| - 1] == RenderHits(hits[..|hits| - 1]);
  }

  /** Up to the three hits the search may return, the context is spelled out
      exactly: one rendering per hit, one separator between neighbours. */
  lemma GroundingShape(hits: seq<Hit>)
    requires |hits| <= HitLimit
    ensures |hits| == 1 ==> Grounding(hits) == RenderHit(hits[0])
    ensures |hits| == 2 ==>
              Grounding(hits) == RenderHit(hits[0]) + HitSeparator + RenderHit(hits[1])
    ensures |hits| == 3 ==>
              Grounding(hits) == RenderHit(hits[0]) + HitSeparator + RenderHit(hits[1])
                                 + HitSeparator + RenderHit(hits[2])
  {
    var parts := RenderHits(hits);
    if |hits| >= 2 {
      var two := parts[..2];
      assert two[..1] == [parts[0]];
      assert JoinWith(two, HitSeparator) == parts[0] + HitSeparator + parts[1];
      if |hits| == 2 {
        assert parts == two;
      } else {
        assert parts[..|parts| - 1] == two;
        assert JoinWith(parts, HitSeparator) == JoinWith(two, HitSeparator) + HitSeparator + parts[2];
      }
    }
  }

  /** Joining the hits of two runs is joining each run with one separator
      between them. */
  lemma GroundingAppend(xs: seq<Hit>, ys: seq<Hit>)
    requires |xs| > 0 && |ys| > 0
    ensures Grounding(xs + ys) == Grounding(xs) + HitSeparator + Grounding(ys)
  {
    assert RenderHits(xs + ys) == RenderHits(xs) + RenderHits(ys);
    JoinAppend(RenderHits(xs), RenderHits(ys), HitSeparator);
  }

  /** The context string: empty when the index is unavailable, otherwise
      the grounding of the search hits for the query. */
  function BuildContext(db: Option<IndexCache.Index>, query: string, search: Search): (c: string)
    requires RespectsLimit(search)
    ensures db.None? ==> c == ""
    ensures db.Some? ==> |c| <= TotalLength(RenderHits(search(db.value, query, HitLimit)))
                                + (HitLimit - 1) * |HitSeparator|
    ensures db.Some? && search(db.value, query, HitLimit) == [] ==> c == ""
  {
    if db.None? then ""
    else Grounding(search(db.value, query, HitLimit))
  }

  /** What the handler hands to the prompt: the question, the history and the
      context. */
  datatype Prepared = Prepared(query: string, history: seq<HistoryMessage>, context: string)

  /** The outcome of the handler's first steps, and the cache slot afterwards. */
  datatype Handled = Handled(result: Result<Prepared, RequestError>, slot: Option<IndexCache.Index>)

  /** `POST` up to the prompt: split the messages (throwing on an empty list
      before the cache is touched), fetch the index through the cache, then
      build the context. */
  function Post(messages: seq<Message>, slot: Option<IndexCache.Index>,
                outcome: IndexCache.LoadOutcome, search: Search): (h: Handled)
    requires RespectsLimit(search)
    ensures |messages| == 0 ==> h.result == Failure(EmptyMessages) && h.slot == slot
    ensures |messages| > 0 ==>
              && h.result.Success?
              && h.result.value.query == messages[|messages| - 1].content
              && h.result.value.history == History(messages)
              && |h.result.value.history| == |messages| - 1
              && h.slot == IndexCache.GetIndex(slot, outcome).slot
    ensures |messages| > 0 && IndexCache.GetIndex(slot, outcome).returned.Some? ==>
              h.result.value.context
                == Grounding(search(IndexCache.GetIndex(slot, outcome).returned.value,
                                    messages[|messages| - 1].content, HitLimit))
    ensures |messages| > 0 && slot.None? && outcome.LoadFailed? ==>
              h.result.value.context == "" && h.slot.None?
  {
    match Split(messages)
    case Failure(e) => Handled(Failure(e), slot)
    case Success((query, history)) =>
      var step := IndexCache.GetIndex(slot, outcome);
      Handled(Success(Prepared(query, history, BuildContext(step.returned, query, search))), step.slot)
  }
}
