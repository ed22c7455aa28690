/** The `/chat` path of main.py: the reply mapping `ask_gemini` and the
    in-memory `chat_history` the handler appends to. The language-model call
    itself is a collaborator: the model receives, as a parameter, the outcome
    `generate_content` produces for a prompt. */
module Chat {
  import opened Wrappers
  import opened TextNormalizer
  import opened CleanTextReference

  datatype Role = User | Bot

  /** One element of `chat_history`: `{"role", "text", "ts"}`. The source
      stores `datetime.utcnow().isoformat()`; here the instant is an opaque
      integer supplied by the caller. */
  datatype Entry = Entry(role: Role, text: string, ts: int)

  /** What `model.generate_content(prompt)` did: it returned a response whose
      `.text` is the optional string, or it raised an exception whose `str()`
      is `detail`. */
  datatype GeminiOutcome = Replied(text: Option<string>) | Raised(detail: string)

  /** The prefix of the reply reporting a failed call ("⚠️" is U+26A0 U+FE0F). */
  const ErrorPrefix := "\U{26A0}\U{FE0F} Error fetching response: "

  /** The reply to a message that is empty after `strip()`. */
  const EmptyMessageReply := "Please type something."

  /** `ask_gemini`: a response's text, or "" when it has none, normalised by
      `clean_text`; a failure becomes a reply carrying its detail and is never
      raised further. */
  function AskGemini(outcome: GeminiOutcome): (reply: string)
    ensures outcome.Raised? ==> reply == ErrorPrefix + outcome.detail
    ensures outcome.Replied? ==> reply == JoinedWords(outcome.text.GetOr(""))
    ensures outcome.Replied? ==> Clean(reply)
    ensures outcome.Replied? ==> (reply == [] <==> AllBlank(outcome.text.GetOr("")))
  {
    match outcome
    case Replied(text) =>
      var raw := text.GetOr("");
      CleanTextIsJoinedWords(raw);
      CleanTextIsClean(raw);
      CleanTextEmpty(raw);
      CleanText(raw)
    case Raised(detail) => ErrorPrefix + detail
  }

  /** What a bot entry can hold: a normalised reply or an error report. */
  predicate IsBotText(t: string) {
    Clean(t) || ErrorPrefix <= t
  }

  /** What a user entry can hold: a stripped, non-empty message. */
  predicate IsUserText(t: string) {
    t != [] && NoEdgeSpace(t)
  }

  /** Every reply `ask_gemini` can give is something a bot entry may hold. */
  lemma AskGeminiIsBotText(outcome: GeminiOutcome)
    ensures IsBotText(AskGemini(outcome))
  {
  }

  /** The shape of `chat_history` that sequential `/chat` calls keep: user
      and bot entries alternate, starting with a user entry, each user entry
      is a stripped non-empty message and each bot entry a possible reply. */
  predicate Alternating(history: seq<Entry>) {
    && |history| % 2 == 0
    && (forall i :: 0 <= i < |history| ==>
          history[i].role == (if i % 2 == 0 then User else Bot))
    && (forall i :: 0 <= i < |history| && i % 2 == 0 ==> IsUserText(history[i].text))
    && (forall i :: 0 <= i < |history| && i % 2 == 1 ==> IsBotText(history[i].text))
  }

  /** Appending one user entry and then one bot entry keeps the shape. */
  lemma AppendExchange(history: seq<Entry>, user: Entry, bot: Entry)
    requires Alternating(history)
    requires user.role == User && IsUserText(user.text)
    requires bot.role == Bot && IsBotText(bot.text)
    ensures Alternating(history + [user, bot])
  {
    var h := history + [user, bot];
    forall i | 0 <= i < |h|
      ensures h[i].role == (if i % 2 == 0 then User else Bot)
      ensures i % 2 == 0 ==> IsUserText(h[i].text)
      ensures i % 2 == 1 ==> IsBotText(h[i].text)
    {
      if i >= |history| {
        assert i == |history| || i == |history| + 1;
      }
    }
  }

  /** One `/chat` exchange on a non-empty stripped message keeps the shape. */
  lemma ExchangeKeepsAlternating(history: seq<Entry>, message: string, outcome: GeminiOutcome, userTs: int, botTs: int)
    requires Alternating(history) && Strip(message) != []
    ensures Alternating(history + [Entry(User, Strip(message), userTs), Entry(Bot, AskGemini(outcome), botTs)])
  {
    var _, _ := StripSlice(message);
    AskGeminiIsBotText(outcome);
    AppendExchange(history, Entry(User, Strip(message), userTs), Entry(Bot, AskGemini(outcome), botTs));
  }

  /** The module-global `chat_history` list. */
  class ChatLog {
    var history: seq<Entry>

    ghost predicate Valid()
      reads this
    {
      Alternating(history)
    }

    /** `chat_history = []` at process start. */
    constructor ()
      ensures Valid() && history == []
    {
      history := [];
    }

    /** The `/chat` handler after request parsing (main.py:239-244).
        `message` is the request's `message` field, "" when it is absent;
        `backend` gives the outcome of the language-model call for a prompt;
        `userTs` and `botTs` are the instants read at the two appends. */
    method Chat(message: string, backend: string -> GeminiOutcome, userTs: int, botTs: int)
      returns (reply: string)
      requires Valid()
      modifies this
      ensures Valid()
      ensures Strip(message) == [] ==> reply == EmptyMessageReply && history == old(history)
      ensures Strip(message) != [] ==>
        && reply == AskGemini(backend(Strip(message)))
        && history == old(history) + [Entry(User, Strip(message), userTs), Entry(Bot, reply, botTs)]
    {
      var userText := Strip(message);
      if userText == [] {
        return EmptyMessageReply;
      }
      ExchangeKeepsAlternating(history, message, backend(userText), userTs, botTs);
      ghost var before := history;
      history := history + [Entry(User, userText, userTs)];
      reply := AskGemini(backend(userText));
      history := history + [Entry(Bot, reply, botTs)];
      assert history == before + [Entry(User, userText, userTs), Entry(Bot, reply, botTs)];
    }
  }
}
