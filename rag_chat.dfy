/** The retrieval-augmented chat script: the matches returned by the vector
    index become one context string, the context and the question are laid
    out in a completion prompt, the completion is cleaned of block-repr
    artifacts, and a submitted message adds turns to the session's chat
    history. The embedding service, the vector index and the completion
    service are opaque functions passed in by the caller. */
module RagChat {
  import opened PyText

  /** A value in a match's metadata. The vector index stores strings,
      numbers, booleans and lists of strings; only a string can be joined. */
  datatype MetadataValue = Str(s: string) | Number | Flag(b: bool) | StrList(items: seq<string>)

  /** One match returned by the vector index query. Its similarity score is
      a float and is not modelled. */
  datatype Match = Match(id: string, metadata: map<string, MetadataValue>)

  /** What an external call, or the script on top of it, can raise. */
  datatype Exception =
    | TypeError(item: nat)                // the context join met a non-string at this index
    | ServiceError(description: string) // raised inside an external client

  /** The result of a call in which nothing catches exceptions. */
  datatype Call<T> = Returned(value: T) | Raised(error: Exception)

  /** The embedding request and the index query made for one prompt. */
  datatype SearchRequest = SearchRequest(query: string, embeddingModel: string, topK: nat)

  /** The completion request made for one assembled prompt. The sampling
      temperature is a float and is not modelled. */
  datatype CompletionRequest = CompletionRequest(prompt: string, model: string, maxTokensToSample: nat)

  const ContentKey := "content"
  const ContextSeparator := "\n\n"
  const EmbeddingModel := "voyage-3"
  const TopK := 5
  const CompletionModel := "claude-3-5-sonnet-20241022"
  /** The default `max_tokens` of the completion helper. */
  const DefaultMaxTokens := 1000

  // ---------------------------------------------------------------------
  // Context join

  /** The content a match contributes: the value under "content" in its
      metadata, or the empty string when that key is missing. */
  function ContentOf(m: Match): (v: MetadataValue)
    ensures ContentKey !in m.metadata ==> v == Str("")
    ensures ContentKey in m.metadata ==> v == m.metadata[ContentKey]
  {
    if ContentKey in m.metadata then m.metadata[ContentKey] else Str("")
  }

  /** Every match contributes a string, so the join succeeds. */
  predicate AllStrings(ms: seq<Match>) {
    forall j :: 0 <= j < |ms| ==> ContentOf(ms[j]).Str?
  }

  /** The index of the first match whose content is not a string, or `|ms|`
      when there is none: the item `str.join` reports in its TypeError. */
  function FirstNonString(ms: seq<Match>): (k: nat)
    ensures k <= |ms|
    ensures forall j :: 0 <= j < k ==> ContentOf(ms[j]).Str?
    ensures k < |ms| ==> !ContentOf(ms[k]).Str?
  {
    if ms == [] || !ContentOf(ms[0]).Str? then 0
    else 1 + FirstNonString(ms[1..])
  }

  /** The list comprehension of contents, in match order. */
  function Contents(ms: seq<Match>): (cs: seq<string>)
    requires AllStrings(ms)
    ensures |cs| == |ms|
  {
    seq(|ms|, j requires 0 <= j < |ms| => ContentOf(ms[j]).s)
  }

  /** The context string: the contents of the matches, in the order the index
      returned them, joined with a blank line; a content that is not a string
      makes the join raise a TypeError naming the first such item. */
  function JoinContents(ms: seq<Match>): (r: Call<string>)
    ensures r.Returned? <==> AllStrings(ms)
    ensures r.Raised? ==> r.error == TypeError(FirstNonString(ms))
  {
    var k := FirstNonString(ms);
    if k < |ms| then Raised(TypeError(k))
    else Returned(Join(ContextSeparator, Contents(ms)))
  }

  /** No match gives the empty context, which is not an error. */
  lemma NoMatchesEmptyContext()
    ensures JoinContents([]) == Returned("")
  {
  }

  /** A single match gives exactly its content, with no separator; one
      without a "content" key gives the empty context. */
  lemma OneMatchContext(m: Match)
    requires ContentOf(m).Str?
    ensures JoinContents([m]) == Returned(ContentOf(m).s)
    ensures ContentKey !in m.metadata ==> JoinContents([m]) == Returned("")
  {
    assert Contents([m]) == [ContentOf(m).s];
  }

  /** The content of match `i` sits in the context at its offset, the
      contents of neighbouring matches are separated by one blank line, and
      the context ends where the last content ends. */
  lemma {:induction false} ContextLayout(ms: seq<Match>, i: nat)
    requires AllStrings(ms)
    requires i < |ms|
    ensures var ctx := JoinContents(ms).value;
            var o := Offset(ContextSeparator, Contents(ms), i);
            var c := ContentOf(ms[i]).s;
            && o + |c| <= |ctx| && ctx[o..o + |c|] == c
            && (i + 1 < |ms| ==>
                  var o' := Offset(ContextSeparator, Contents(ms), i + 1);
                  o' <= |ctx| && ctx[o + |c|..o'] == ContextSeparator)
            && (i + 1 == |ms| ==> |ctx| == o + |c|)
  {
    JoinPartAt(ContextSeparator, Contents(ms), i);
    if i + 1 < |ms| {
      JoinSeparatorAt(ContextSeparator, Contents(ms), i);
    } else {
      JoinLength(ContextSeparator, Contents(ms));
    }
  }

  /** One more match extends the context by a blank line and its content. */
  lemma ContextSnoc(ms: seq<Match>, m: Match)
    requires AllStrings(ms) && |ms| > 0
    requires ContentOf(m).Str?
    ensures JoinContents(ms + [m]) == Returned(JoinContents(ms).value + ContextSeparator + ContentOf(m).s)
  {
    assert Contents(ms + [m]) == Contents(ms) + [ContentOf(m).s];
    JoinSnoc(ContextSeparator, Contents(ms), ContentOf(m).s);
  }

  /** `retrieve_context`: embed the prompt, query the index for the top
      matches with their metadata, and join their contents. `search` stands
      for the embedding call followed by the index query. */
  function RetrieveContext(prompt: string, search: SearchRequest -> Call<seq<Match>>): (r: Call<string>)
    ensures search(SearchRequest(prompt, EmbeddingModel, TopK)).Raised? ==>
              r == Raised(search(SearchRequest(prompt, EmbeddingModel, TopK)).error)
    ensures search(SearchRequest(prompt, EmbeddingModel, TopK)).Returned? ==>
              r == JoinContents(search(SearchRequest(prompt, EmbeddingModel, TopK)).value)
  {
    match search(SearchRequest(prompt, EmbeddingModel, TopK))
    case Raised(e) => Raised(e)
    case Returned(ms) => JoinContents(ms)
  }

  // ---------------------------------------------------------------------
  // Prompt assembly

  /** `anthropic.HUMAN_PROMPT` and `anthropic.AI_PROMPT`: markers defined by
      the completion library, left opaque. */
  const HumanPrompt: string
  const AiPrompt: string

  /** The fixed text between the human marker and the context. */
  const ContextHeader := " You are an expert coder specialized in the boardgame.io library.\nContext:\n"
  /** The fixed text between the context and the question. */
  const QuestionHeader := "\n\nQuestion:\n"

  /** Where the context starts in every assembled prompt. */
  function ContextStart(): nat {
    |HumanPrompt| + |ContextHeader|
  }

  /** Where the question starts in a prompt built around `context`. */
  function QuestionStart(context: string): nat {
    ContextStart() + |context| + |QuestionHeader|
  }

  /** The f-string prompt of `fetch_claude_response`. */
  function FullPrompt(question: string, context: string): string {
    HumanPrompt + ContextHeader + context + QuestionHeader + question + "\n" + AiPrompt
  }

  /** The prompt opens with the human marker, then the persona line and the
      context header, then the context, the question header, the question
      and a newline, and closes with the assistant marker; every piece sits
      at a fixed offset, so the context comes before the question. */
  lemma FullPromptLayout(question: string, context: string)
    ensures var r := FullPrompt(question, context);
            && |r| == QuestionStart(context) + |question| + 1 + |AiPrompt|
            && r[..|HumanPrompt|] == HumanPrompt
            && r[|HumanPrompt|..ContextStart()] == ContextHeader
            && r[ContextStart()..ContextStart() + |context|] == context
            && r[ContextStart() + |context|..QuestionStart(context)] == QuestionHeader
            && r[QuestionStart(context)..QuestionStart(context) + |question|] == question
            && r[QuestionStart(context) + |question|] == '\n'
            && r[|r| - |AiPrompt|..] == AiPrompt
  {
  }

  /** The prompt determines the question and the context once the length of
      the context is known; with the same context, different questions give
      different prompts. */
  lemma FullPromptInjective(q1: string, c1: string, q2: string, c2: string)
    requires |c1| == |c2|
    requires FullPrompt(q1, c1) == FullPrompt(q2, c2)
    ensures q1 == q2 && c1 == c2
  {
    FullPromptLayout(q1, c1);
    FullPromptLayout(q2, c2);
    var p := FullPrompt(q1, c1);
    assert c1 == p[ContextStart()..ContextStart() + |c1|] == c2;
    assert q1 == p[QuestionStart(c1)..QuestionStart(c1) + |q1|] == q2;
  }

  // ---------------------------------------------------------------------
  // Response cleaning

  /** The two fragments of a content block's repr that the script deletes. */
  const TextBlockOpen := "[TextBlock(text="
  const TextBlockClose := ", type='text')]"

  /** The cleaned completion: every opening fragment deleted, then every
      closing fragment deleted, then surrounding whitespace stripped. */
  function CleanResponse(raw: string): (r: string)
    ensures IsStripped(r)
  {
    Strip(Replace(Replace(raw, TextBlockOpen, ""), TextBlockClose, ""))
  }

  /** Cleaning never lengthens the completion. */
  lemma CleanNoLonger(raw: string)
    ensures |CleanResponse(raw)| <= |raw|
  {
    ReplaceShrinks(raw, TextBlockOpen, "");
    ReplaceShrinks(Replace(raw, TextBlockOpen, ""), TextBlockClose, "");
  }

  /** A completion without either fragment is only stripped. */
  lemma CleanWithoutArtifacts(raw: string)
    requires !Contains(raw, TextBlockOpen) && !Contains(raw, TextBlockClose)
    ensures CleanResponse(raw) == Strip(raw)
  {
    ReplaceAbsent(raw, TextBlockOpen, "");
    ReplaceAbsent(raw, TextBlockClose, "");
  }

  /** Deleting the opening fragment from a wrapped text removes exactly the
      wrapper's opening. */
  lemma DeleteOpening(t: string)
    requires !Contains(t, TextBlockOpen)
    ensures Replace(TextBlockOpen + t + TextBlockClose, TextBlockOpen, "") == t + TextBlockClose
  {
    var open, close := TextBlockOpen, TextBlockClose;
    var raw := open + t + close;
    assert raw[..|open|] == open && raw[|open|..] == t + close;
    assert ',' !in open[1..];
    NoStraddleByFirstChar(t, close, open);
    ReplaceConcat(t, close, open, "");
    ReplaceAbsent(t, open, "");
  }

  /** Deleting the closing fragment from a text that ends with it removes
      exactly that ending. */
  lemma DeleteClosing(t: string)
    requires !Contains(t, TextBlockClose)
    ensures Replace(t + TextBlockClose, TextBlockClose, "") == t
  {
    var close := TextBlockClose;
    assert ']' !in close[..|close| - 1];
    NoStraddleByLastChar(t, close, close);
    ReplaceConcat(t, close, close, "");
    ReplaceAbsent(t, close, "");
    assert close[..|close|] == close && close[|close|..] == [];
  }

  /** Text wrapped in both fragments comes back unwrapped and stripped. */
  lemma CleanUnwrapsTextBlock(t: string)
    requires !Contains(t, TextBlockOpen) && !Contains(t, TextBlockClose)
    ensures CleanResponse(TextBlockOpen + t + TextBlockClose) == Strip(t)
  {
    DeleteOpening(t);
    DeleteClosing(t);
  }

  /** Deleting the opening fragment from the middle of "[TextBl" + opening
      fragment + "ock(text=" joins the two outer pieces into a new opening
      fragment. */
  lemma DeletionJoinsFragments()
    ensures Replace("[TextBl" + TextBlockOpen + "ock(text=", TextBlockOpen, "") == TextBlockOpen
  {
    var a, c := "[TextBl", "ock(text=";
    assert '[' !in TextBlockOpen[1..];
    NoStraddleByFirstChar(a, TextBlockOpen + c, TextBlockOpen);
    DeletionJoinsPieces(a, c, TextBlockOpen);
  }

  /** The closing fragment does not occur in the opening one, so the second
      deletion leaves the opening fragment as it is. */
  lemma OpeningSurvivesClosingDeletion()
    ensures Replace(TextBlockOpen, TextBlockClose, "") == TextBlockOpen
  {
    assert TextBlockClose[0] !in TextBlockOpen;
    AbsentFirstChar(TextBlockOpen, TextBlockClose);
    ReplaceAbsent(TextBlockOpen, TextBlockClose, "");
  }

  /** The opening fragment has no surrounding whitespace. */
  lemma OpeningIsStripped()
    ensures Strip(TextBlockOpen) == TextBlockOpen
  {
    assert IsStripped(TextBlockOpen) by {
      assert TextBlockOpen[0] == '[' && TextBlockOpen[|TextBlockOpen| - 1] == '=';
    }
    StripFixedPoint(TextBlockOpen);
  }

  /** Deletion can join two fragments into a new occurrence: the cleaned
      text may still contain the opening fragment. */
  lemma CleanCanLeaveArtifact(raw: string)
    requires raw == "[TextBl" + TextBlockOpen + "ock(text="
    ensures CleanResponse(raw) == TextBlockOpen
    ensures Contains(CleanResponse(raw), TextBlockOpen)
  {
    DeletionJoinsFragments();
    OpeningSurvivesClosingDeletion();
    OpeningIsStripped();
    assert OccursAt(TextBlockOpen, TextBlockOpen, 0);
  }

  /** `fetch_claude_response`: the assembled prompt is sent to the completion
      service and its completion text is cleaned; an exception from the
      service propagates unchanged. */
  function FetchClaudeResponse(question: string, context: string, maxTokens: nat,
                               complete: CompletionRequest -> Call<string>): (r: Call<string>)
    ensures var reply := complete(CompletionRequest(FullPrompt(question, context), CompletionModel, maxTokens));
            && (reply.Raised? ==> r == reply)
            && (reply.Returned? ==> r == Returned(CleanResponse(reply.value)))
            && (reply.Returned? ==> IsStripped(r.value) && |r.value| <= |reply.value|)
  {
    match complete(CompletionRequest(FullPrompt(question, context), CompletionModel, maxTokens))
    case Raised(e) => Raised(e)
    case Returned(raw) =>
      CleanNoLonger(raw);
      Returned(CleanResponse(raw))
  }

  // ---------------------------------------------------------------------
  // Chat session

  /** The two speakers of the chat history. */
  datatype Speaker = You | Claude {
    /** The label stored in the history and shown beside each message. */
    function Label(): (l: string)
      ensures l == "You" <==> this == You
      ensures this == Claude ==> l == "Claude"
    {
      match this
      case You => "You"
      case Claude => "Claude"
    }
  }

  /** One entry of the chat history: who spoke and what was said. */
  datatype Turn = Turn(speaker: Speaker, text: string)

  /** The history as the script stores it: a list of `(label, text)` pairs,
      the label being "You" for the user's messages. */
  function Entries(h: seq<Turn>): (r: seq<(string, string)>)
    ensures |r| == |h|
    ensures forall i :: 0 <= i < |h| ==> r[i].0 == (if h[i].speaker == You then "You" else "Claude")
    ensures forall i :: 0 <= i < |h| ==> r[i].1 == h[i].text
  {
    seq(|h|, i requires 0 <= i < |h| => (h[i].speaker.Label(), h[i].text))
  }

  /** The pairs lose nothing: two histories with the same pairs are equal. */
  lemma EntriesInjective(h1: seq<Turn>, h2: seq<Turn>)
    requires Entries(h1) == Entries(h2)
    ensures h1 == h2
  {
    forall i | 0 <= i < |h1| ensures h1[i] == h2[i] {
      assert Entries(h1)[i] == Entries(h2)[i];
    }
  }

  /** Appending a turn appends its pair, as each `append` call does. */
  lemma EntriesAppend(h: seq<Turn>, t: Turn)
    ensures Entries(h + [t]) == Entries(h) + [(t.speaker.Label(), t.text)]
  {
    assert forall i :: 0 <= i < |h| ==> (h + [t])[i] == h[i];
  }

  /** Entry `i` is a stripped, non-blank user message, or a stripped reply
      that directly follows a user message. */
  predicate WellFormedTurn(h: seq<Turn>, i: nat)
    requires i < |h|
  {
    && IsStripped(h[i].text)
    && ((h[i].speaker == You && h[i].text != "")
        || (h[i].speaker == Claude && i > 0 && h[i - 1].speaker == You))
  }

  /** The invariant of the chat history kept by `Session.Submit`. */
  predicate WellFormedHistory(h: seq<Turn>) {
    forall i :: 0 <= i < |h| ==> WellFormedTurn(h, i)
  }

  /** Appending a well-formed entry keeps the history well formed. */
  lemma HistoryAppend(h: seq<Turn>, t: Turn)
    requires WellFormedHistory(h)
    requires WellFormedTurn(h + [t], |h|)
    ensures WellFormedHistory(h + [t])
  {
    forall i | 0 <= i < |h| ensures WellFormedTurn(h + [t], i) {
      assert WellFormedTurn(h, i);
    }
  }

  /** A stripped, non-blank user message may always be appended. */
  lemma AppendMessage(h: seq<Turn>, message: string)
    requires WellFormedHistory(h)
    requires IsStripped(message) && message != ""
    ensures WellFormedHistory(h + [Turn(You, message)])
  {
    HistoryAppend(h, Turn(You, message));
  }

  /** A stripped reply may be appended right after a user message. */
  lemma AppendReply(h: seq<Turn>, reply: string)
    requires WellFormedHistory(h)
    requires h != [] && h[|h| - 1].speaker == You
    requires IsStripped(reply)
    ensures WellFormedHistory(h + [Turn(Claude, reply)])
  {
    HistoryAppend(h, Turn(Claude, reply));
  }

  /** How many entries of `h` come from `speaker`. */
  function CountSpeaker(h: seq<Turn>, speaker: Speaker): nat {
    if h == [] then 0
    else CountSpeaker(h[..|h| - 1], speaker) + (if h[|h| - 1].speaker == speaker then 1 else 0)
  }

  /** Every reply answers its own user message: a well-formed history never
      holds more replies than user messages, and one that ends in a user
      message holds strictly more user messages than replies. */
  lemma {:induction false} RepliesNeverOutnumberMessages(h: seq<Turn>)
    requires WellFormedHistory(h)
    ensures CountSpeaker(h, Claude) <= CountSpeaker(h, You)
    ensures h != [] && h[|h| - 1].speaker == You ==> CountSpeaker(h, Claude) < CountSpeaker(h, You)
  {
    if h != [] {
      var h' := h[..|h| - 1];
      forall i | 0 <= i < |h'| ensures WellFormedTurn(h', i) {
        assert WellFormedTurn(h, i);
      }
      RepliesNeverOutnumberMessages(h');
      assert WellFormedTurn(h, |h| - 1);
      if h[|h| - 1].speaker == Claude {
        assert h'[|h'| - 1] == h[|h| - 2];
      }
    }
  }

  /** Retrieval then generation for a question, as `submit_message` runs
      them: both receive the same question, and an exception from either
      propagates. */
  function Reply(question: string, search: SearchRequest -> Call<seq<Match>>,
                 complete: CompletionRequest -> Call<string>): (r: Call<string>)
    ensures r.Returned? ==> IsStripped(r.value) && RetrieveContext(question, search).Returned?
  {
    match RetrieveContext(question, search)
    case Raised(e) => Raised(e)
    case Returned(context) => FetchClaudeResponse(question, context, DefaultMaxTokens, complete)
  }

  /** The order `submit_message` runs the two steps in: generation sees the
      question and the retrieved context with the default token limit, and
      is skipped when retrieval raises. */
  lemma ReplyPipeline(question: string, search: SearchRequest -> Call<seq<Match>>,
                      complete: CompletionRequest -> Call<string>)
    ensures var context := RetrieveContext(question, search);
            && (context.Raised? ==> Reply(question, search, complete) == Raised(context.error))
            && (context.Returned? ==>
                  Reply(question, search, complete)
                  == FetchClaudeResponse(question, context.value, DefaultMaxTokens, complete))
  {
  }

  /** End to end: when the search returns matches whose contents are all
      strings, and the completion service answers the prompt built from
      their join, the reply is that answer cleaned. */
  lemma ReplyEndToEnd(question: string, search: SearchRequest -> Call<seq<Match>>,
                      complete: CompletionRequest -> Call<string>, ms: seq<Match>, raw: string)
    requires search(SearchRequest(question, EmbeddingModel, TopK)) == Returned(ms)
    requires AllStrings(ms)
    requires complete(CompletionRequest(FullPrompt(question, Join(ContextSeparator, Contents(ms))),
                                        CompletionModel, DefaultMaxTokens)) == Returned(raw)
    ensures Reply(question, search, complete) == Returned(CleanResponse(raw))
  {
  }

  /** How a submission ended. */
  datatype SubmitOutcome = Ignored | Answered | Propagated(error: Exception)

  /** The session state the script keeps: the text area's content and the
      chat history. */
  class Session {
    var input: string
    var history: seq<Turn>

    ghost predicate Valid()
      reads this
    {
      WellFormedHistory(history)
    }

    /** A new session starts with an empty input and an empty history. */
    constructor ()
      ensures Valid()
      ensures input == "" && history == []
    {
      input := "";
      history := [];
    }

    /** `submit_message`: a blank input changes nothing. Otherwise the
        stripped input is appended as the user's turn and the input is
        cleared before retrieval and generation run; their reply is appended
        as Claude's turn. An exception from either leaves the user's turn in
        place, the input cleared and no reply. */
    method Submit(search: SearchRequest -> Call<seq<Match>>,
                  complete: CompletionRequest -> Call<string>) returns (outcome: SubmitOutcome)
      requires Valid()
      modifies this
      ensures Valid()
      ensures var message := Strip(old(input));
              if message == "" then
                outcome == Ignored && input == old(input) && history == old(history)
              else
                var reply := Reply(message, search, complete);
                && input == ""
                && (reply.Returned? ==>
                      outcome == Answered
                      && history == old(history) + [Turn(You, message)] + [Turn(Claude, reply.value)])
                && (reply.Raised? ==>
                      outcome == Propagated(reply.error) && history == old(history) + [Turn(You, message)])
    {
      var message := Strip(input);
      if message == "" {
        return Ignored;
      }
      AppendMessage(history, message);
      history := history + [Turn(You, message)];
      input := "";
      var reply := Reply(message, search, complete);
      if reply.Raised? {
        return Propagated(reply.error);
      }
      AppendReply(history, reply.value);
      history := history + [Turn(Claude, reply.value)];
      outcome := Answered;
    }
  }
}
