/**
 The query-resolution state machine of the dental-product chatbot. A session
 holds the conversation log and the row of the last product discussed. Each
 query appends the user's turn, asks the language model for a row, either
 gives up with a fixed request for detail or asks the model for an answer
 about that row, and appends the reply as the assistant's turn.

 The two model calls are not part of the model: what each call produced
 (a reply text, or an exception) is an input of the step.
 */
module Chatbot {
  import opened Wrappers
  import Strings
  import Integers
  import Catalog
  import Conversation
  import Sequences

  /** The selection call's sentinel for "no product". */
  const NoMatch: int := -1

  /**
   The four fixed replies: for a selection of nothing, for an index outside
   the table, for a failed answer call, and for an answer step that raised.
   */
  datatype Fallbacks = Fallbacks(noMatch: string, notFound: string, generationError: string, responseError: string)

  /** The chatbot's own fixed replies, in Spanish. */
  function SpanishFallbacks(): Fallbacks {
    Fallbacks(
      "Lo siento, no pude encontrar un producto específico para tu consulta. ¿Podrías ser más específico sobre lo que estás buscando?",
      "Lo siento, no pude encontrar un producto que coincida con tu consulta. Por favor, intenta ser más específico o visita nuestra página web para más información.",
      "Lo siento, hubo un error al procesar tu consulta. Por favor, intenta nuevamente.",
      "Hubo un error generando la respuesta. Por favor, intenta nuevamente.")
  }

  /** What the selection call produced: an exception, or the reply's text. */
  datatype SelectionReply = SelectionFailed | SelectionText(content: string)

  /** What the answer call produced: an exception, or the reply's text. */
  datatype GenerationReply = GenerationFailed | GenerationText(content: string) {

    /** The text the answer step returns for this reply. */
    function Text(texts: Fallbacks): string {
      if GenerationText? then content else texts.generationError
    }
  }

  /** What the answer call is given: the chosen row, the recent-conversation block and the query. */
  datatype GenerationRequest = GenerationRequest(product: Catalog.Product, context: string, query: string)

  /** The answer step's text, and the request it sent to the model, if it sent one. */
  datatype Answer = Answer(text: string, request: Option<GenerationRequest>)

  /** A Python call that either returns a value or raises. */
  datatype Outcome<+T> = Returned(value: T) | Raised

  /** `conversation_history` and `last_product_index`. */
  datatype Session = Session(history: seq<Conversation.Turn>, lastProduct: Option<nat>)

  /** The state the constructor sets up: no turns, no product yet. */
  function NewSession(): (s: Session)
    ensures |s.history| == 0 && s.lastProduct.None?
    ensures forall rows :: Valid(rows, s)
  {
    Session([], None)
  }

  /** The last product, when there is one, is a row of the table. */
  predicate Valid(rows: seq<Catalog.Product>, s: Session) {
    s.lastProduct.Some? ==> s.lastProduct.value < |rows|
  }

  /** The integer a selection reply spells, once surrounding whitespace is stripped. */
  function ReplyNumber(content: string): Option<int> {
    Integers.ParseInt(Strings.Strip(content))
  }

  /**
   `find_relevant_product`, after the model call: the reply's number when it
   names a row of an `n`-row table, and the sentinel otherwise (the call
   raised, the reply is not an integer, or the integer is out of range).
   */
  function FindRelevantProduct(n: nat, reply: SelectionReply): (r: int)
    ensures r == NoMatch || 0 <= r < n
    ensures r != NoMatch ==> reply.SelectionText? && ReplyNumber(reply.content) == Some(r)
    ensures reply.SelectionText? && ReplyNumber(reply.content).Some?
              && 0 <= ReplyNumber(reply.content).value < n
            ==> r == ReplyNumber(reply.content).value
  {
    match reply
    case SelectionFailed => NoMatch
    case SelectionText(content) =>
      match ReplyNumber(content)
      case None => NoMatch
      case Some(index) => if 0 <= index < n then index else NoMatch
  }

  /** A reply that spells a row's listed number, whatever whitespace surrounds it, selects that row. */
  lemma ListedNumberSelects(n: nat, i: nat, before: string, after: string)
    requires i < n
    requires Strings.AllSpace(before) && Strings.AllSpace(after)
    ensures FindRelevantProduct(n, SelectionText(before + Integers.ShowNat(i) + after)) == i
  {
    var digits := Integers.ShowNat(i);
    assert !Strings.IsSpace(digits[0]) && !Strings.IsSpace(digits[|digits| - 1]);
    Strings.StripOf(before, digits, after);
    Integers.ParseShowInt(i);
    assert Integers.ShowInt(i) == digits;
  }

  /**
   A reply that spells an integer outside the table, the literal sentinel
   `-1` included, selects nothing.
   */
  lemma OutOfRangeNumberSelectsNothing(n: nat, v: int, before: string, after: string)
    requires v < 0 || v >= n
    requires Strings.AllSpace(before) && Strings.AllSpace(after)
    ensures FindRelevantProduct(n, SelectionText(before + Integers.ShowInt(v) + after)) == NoMatch
  {
    var text := Integers.ShowInt(v);
    var digits := Integers.ShowNat(if v < 0 then -v else v);
    assert text[|text| - 1] == digits[|digits| - 1];
    assert !Strings.IsSpace(text[0]) && !Strings.IsSpace(text[|text| - 1]);
    Strings.StripOf(before, text, after);
    Integers.ParseShowInt(v);
  }

  /**
   `get_product_response`: an index outside the table gets the fixed
   not-found text without a model call; otherwise the row's columns are read
   (raising when one is missing) and the model is asked, its reply returned
   verbatim or replaced by the apology when the call raises.
   */
  function GetProductResponse(rows: seq<Catalog.Product>, texts: Fallbacks, history: seq<Conversation.Turn>,
                              index: int, query: string, reply: GenerationReply): (r: Outcome<Answer>)
    ensures index < 0 || index >= |rows| ==> r == Returned(Answer(texts.notFound, None))
    ensures r.Raised? <==> 0 <= index < |rows| && !Catalog.HasDetails(rows[index])
    ensures 0 <= index < |rows| && Catalog.HasDetails(rows[index]) ==>
              r == Returned(Answer(reply.Text(texts), Some(GenerationRequest(rows[index], Conversation.ContextText(history), query))))
  {
    if index < 0 || index >= |rows| then
      Returned(Answer(texts.notFound, None))
    else if !Catalog.HasDetails(rows[index]) then
      Raised
    else
      Returned(Answer(reply.Text(texts), Some(GenerationRequest(rows[index], Conversation.ContextText(history), query))))
  }

  /** The range guard answers before any model call: the reply cannot change its result. */
  lemma NotFoundIgnoresModel(rows: seq<Catalog.Product>, texts: Fallbacks, history: seq<Conversation.Turn>,
                             index: int, query: string, reply1: GenerationReply, reply2: GenerationReply)
    requires index < 0 || index >= |rows|
    ensures GetProductResponse(rows, texts, history, index, query, reply1)
         == GetProductResponse(rows, texts, history, index, query, reply2)
    ensures GetProductResponse(rows, texts, history, index, query, reply1).value.text == texts.notFound
  {
  }

  /** The result of one query: the new session, the reply, and the answer request sent, if any. */
  datatype Step = Step(session: Session, response: string, request: Option<GenerationRequest>)

  /**
   `process_query`. The user's turn is logged before either model call and
   the reply after both. A selection of nothing keeps the last product and
   asks for detail; a selected row becomes the last product and is answered
   by the model, by its apology, or, when the row lacks a column, by the
   outer apology. The not-found text of the answer step is never reached.
   */
  function ProcessQuery(rows: seq<Catalog.Product>, texts: Fallbacks, s: Session, query: string,
                        selection: SelectionReply, generation: GenerationReply): (r: Step)
    ensures r.session.history == s.history + [Conversation.Turn(true, query), Conversation.Turn(false, r.response)]
    ensures Valid(rows, s) ==> Valid(rows, r.session)
    ensures FindRelevantProduct(|rows|, selection) == NoMatch ==>
              && r.session.lastProduct == s.lastProduct
              && r.response == texts.noMatch
              && r.request.None?
    ensures FindRelevantProduct(|rows|, selection) != NoMatch ==>
              && r.session.lastProduct == Some(FindRelevantProduct(|rows|, selection) as nat)
              && (r.request.Some? <==> Catalog.HasDetails(rows[FindRelevantProduct(|rows|, selection)]))
              && (r.request.Some? ==> r.response == generation.Text(texts))
              && (r.request.None? ==> r.response == texts.responseError)
    ensures r.request.Some? ==>
              && r.request.value.product == rows[FindRelevantProduct(|rows|, selection)]
              && r.request.value.context == Conversation.ContextText(s.history + [Conversation.Turn(true, query)])
              && r.request.value.query == query
  {
    var history := s.history + [Conversation.Turn(true, query)];
    var index := FindRelevantProduct(|rows|, selection);
    var answer :=
      if index == NoMatch then Answer(texts.noMatch, None)
      else
        var outcome := GetProductResponse(rows, texts, history, index, query, generation);
        if outcome.Returned? then outcome.value else Answer(texts.responseError, None);
    var log := history + [Conversation.Turn(false, answer.text)];
    assert log == s.history + [Conversation.Turn(true, query), Conversation.Turn(false, answer.text)];
    Step(Session(log, if index == NoMatch then s.lastProduct else Some(index)), answer.text, answer.request)
  }

  /** One user query with the two model outcomes it met. */
  datatype Exchange = Exchange(query: string, selection: SelectionReply, generation: GenerationReply)

  /**
   `log` is the turns a run of `xs` adds: for each query in order, the user's
   turn holding it and then an assistant turn.
   */
  ghost predicate Alternates(log: seq<Conversation.Turn>, xs: seq<Exchange>) {
    && |log| == 2 * |xs|
    && forall k :: 0 <= k < |xs| ==> log[2 * k] == Conversation.Turn(true, xs[k].query) && !log[2 * k + 1].isUser
  }

  lemma AlternatesCons(reply: string, log: seq<Conversation.Turn>, x: Exchange, xs: seq<Exchange>)
    requires Alternates(log, xs)
    ensures Alternates([Conversation.Turn(true, x.query), Conversation.Turn(false, reply)] + log, [x] + xs)
  {
    var log' := [Conversation.Turn(true, x.query), Conversation.Turn(false, reply)] + log;
    var xs' := [x] + xs;
    forall k | 0 <= k < |xs'|
      ensures log'[2 * k] == Conversation.Turn(true, xs'[k].query) && !log'[2 * k + 1].isUser
    {
      if k > 0 {
        assert log'[2 * k] == log[2 * (k - 1)];
        assert log'[2 * k + 1] == log[2 * (k - 1) + 1];
        assert xs'[k] == xs[k - 1];
      }
    }
  }

  /** A session after answering the queries in order. */
  function Run(rows: seq<Catalog.Product>, texts: Fallbacks, s: Session, xs: seq<Exchange>): (r: Session)
    ensures |r.history| >= |s.history| && r.history[..|s.history|] == s.history
    ensures Alternates(r.history[|s.history|..], xs)
    ensures Valid(rows, s) ==> Valid(rows, r)
    ensures s.lastProduct.Some? ==> r.lastProduct.Some?
    decreases |xs|
  {
    if |xs| == 0 then s
    else
      var step := ProcessQuery(rows, texts, s, xs[0].query, xs[0].selection, xs[0].generation);
      var next := step.session;
      var r := Run(rows, texts, next, xs[1..]);
      assert next.history == s.history + [Conversation.Turn(true, xs[0].query), Conversation.Turn(false, step.response)];
      LogExtends(s.history, step.response, r.history, xs);
      r
  }

  /**
   A log that extends `h` by the first exchange of `xs` and then alternates
   with the rest extends `h` and alternates with all of `xs` from there.
   */
  lemma LogExtends(h: seq<Conversation.Turn>, reply: string, log: seq<Conversation.Turn>, xs: seq<Exchange>)
    requires |xs| > 0
    requires |log| >= |h| + 2 && log[..|h| + 2] == h + [Conversation.Turn(true, xs[0].query), Conversation.Turn(false, reply)]
    requires Alternates(log[|h| + 2..], xs[1..])
    ensures log[..|h|] == h
    ensures Alternates(log[|h|..], xs)
  {
    var added := [Conversation.Turn(true, xs[0].query), Conversation.Turn(false, reply)];
    Sequences.PrefixThenRest(log, h, added);
    AlternatesCons(reply, log[|h| + 2..], xs[0], xs[1..]);
    assert [xs[0]] + xs[1..] == xs;
  }

  /** From construction on, the last product is never outside the table. */
  lemma RunFromNewIsValid(rows: seq<Catalog.Product>, texts: Fallbacks, xs: seq<Exchange>)
    ensures Valid(rows, Run(rows, texts, NewSession(), xs))
  {
  }

  /**
   A reply that names a complete row makes the model's answer the query's
   reply and that row the last product.
   */
  lemma NamedRowIsAnswered(rows: seq<Catalog.Product>, texts: Fallbacks, s: Session, query: string, i: nat, answer: string)
    requires i < |rows| && Catalog.HasDetails(rows[i])
    ensures ProcessQuery(rows, texts, s, query, SelectionText(Integers.ShowNat(i)), GenerationText(answer)).response == answer
    ensures ProcessQuery(rows, texts, s, query, SelectionText(Integers.ShowNat(i)), GenerationText(answer)).session.lastProduct == Some(i)
  {
    ListedNumberSelects(|rows|, i, "", "");
    Sequences.Unpadded(Integers.ShowNat(i));
  }

  /**
   A reply that names a number outside the table gives the request for
   detail and leaves the last product as it was.
   */
  lemma UnlistedNumberIsNoMatch(rows: seq<Catalog.Product>, texts: Fallbacks, s: Session, query: string, v: int,
                                generation: GenerationReply)
    requires v < 0 || v >= |rows|
    ensures ProcessQuery(rows, texts, s, query, SelectionText(Integers.ShowInt(v)), generation).response == texts.noMatch
    ensures ProcessQuery(rows, texts, s, query, SelectionText(Integers.ShowInt(v)), generation).session.lastProduct == s.lastProduct
  {
    OutOfRangeNumberSelectsNothing(|rows|, v, "", "");
    Sequences.Unpadded(Integers.ShowInt(v));
  }
}
