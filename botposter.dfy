/** The result relay (botposter/app/main.py): each result envelope taken off
    `publishstock` becomes one HTTP post of `{text, bot_name}` to the chatroom
    it names.

    An envelope is the dictionary `json.loads` gives, with every value already
    rendered as the text the f-strings print. Whether each post raises is a
    supplied script; the response of a post that does not raise is never
    looked at, so the model has none. */
module BotPoster {
  import opened Wrappers
  import Strings

  /** The chat service's bot endpoint, to which the chatroom is appended. */
  const BotChatroomUrl: string := "http://chat/v1/botchatroom/"
  const QuoteSeparator: string := " quote is "

  /** A decoded result envelope. */
  type Envelope = map<string, string>

  /** One `requests.post`: the target URL and the JSON body `{text, bot_name}`. */
  datatype Post = Post(url: string, text: string, botName: string)

  /** How the callback can end without a post: a field missing from the
      envelope, or a post that raised. */
  datatype RelayError = KeyError(field: string) | PostConnectionError

  /** The display line `f'{stock_name} quote is {stock_quote}'`. */
  function QuoteText(stockName: string, stockQuote: string): string
  {
    stockName + QuoteSeparator + stockQuote
  }

  /** The callback's post for one envelope, or the KeyError of the first field
      it reads that is missing, in the order the code reads them. */
  function Callback(incoming: Envelope): Result<Post, RelayError>
  {
    if "stock_name" !in incoming then Failure(KeyError("stock_name"))
    else if "stock_quote" !in incoming then Failure(KeyError("stock_quote"))
    else if "bot_name" !in incoming then Failure(KeyError("bot_name"))
    else if "chatroom" !in incoming then Failure(KeyError("chatroom"))
    else
      Success(Post(BotChatroomUrl + incoming["chatroom"],
                   QuoteText(incoming["stock_name"], incoming["stock_quote"]),
                   incoming["bot_name"]))
  }

  /** A post is made exactly when all four fields are present; it carries the
      quote line and the bot name, and the chatroom only in its URL. */
  lemma CallbackPost(incoming: Envelope)
    ensures Callback(incoming).Success? <==>
              "stock_name" in incoming && "stock_quote" in incoming
              && "bot_name" in incoming && "chatroom" in incoming
    ensures Callback(incoming).Success? ==>
              && Callback(incoming).value.botName == incoming["bot_name"]
              && Callback(incoming).value.text == incoming["stock_name"] + " quote is " + incoming["stock_quote"]
              && Callback(incoming).value.url == "http://chat/v1/botchatroom/" + incoming["chatroom"]
  {
  }

  /** Two envelopes are posted to the same URL exactly when they name the
      same chatroom: routing depends on that field alone. */
  lemma RoutingByChatroom(a: Envelope, b: Envelope)
    requires Callback(a).Success? && Callback(b).Success?
    ensures Callback(a).value.url == Callback(b).value.url <==> a["chatroom"] == b["chatroom"]
  {
    Strings.PrefixCancel(BotChatroomUrl, a["chatroom"], b["chatroom"]);
  }

  /** The body does not depend on the chatroom. */
  lemma BodyIgnoresChatroom(incoming: Envelope, chatroom: string)
    requires Callback(incoming).Success?
    ensures Callback(incoming[ "chatroom" := chatroom]).Success?
    ensures Callback(incoming[ "chatroom" := chatroom]).value.text == Callback(incoming).value.text
    ensures Callback(incoming[ "chatroom" := chatroom]).value.botName == Callback(incoming).value.botName
  {
  }

  /** When stock names hold no space, the quote line gives back both the
      stock name and the quote it was made from. */
  lemma QuoteTextInjective(name1: string, quote1: string, name2: string, quote2: string)
    requires ' ' !in name1 && ' ' !in name2
    ensures QuoteText(name1, quote1) == QuoteText(name2, quote2) <==> name1 == name2 && quote1 == quote2
  {
    Strings.HeadAtFirstSeparator(name1, QuoteSeparator + quote1, name2, QuoteSeparator + quote2, ' ');
    assert QuoteText(name1, quote1) == name1 + (QuoteSeparator + quote1);
    assert QuoteText(name2, quote2) == name2 + (QuoteSeparator + quote2);
    Strings.PrefixCancel(QuoteSeparator, quote1, quote2);
  }

  /** What consuming a run of deliveries does: the posts attempted, in order;
      how many deliveries the callback was run on (each of them acknowledged
      by auto_ack, so none is delivered again); and the exception that ended
      consumption, if any. */
  datatype Consumption = Consumption(attempted: seq<Post>, handled: nat, stoppedBy: Option<RelayError>)

  /** `start_consuming` over `deliveries`: one callback per delivery, in queue
      order. An exception in the callback leaves start_consuming and ends the
      run; the delivery that raised is already acknowledged and is lost.
      `postRaises[i]` says whether the i-th post raises. */
  function Consume(deliveries: seq<Envelope>, postRaises: seq<bool>): (c: Consumption)
    ensures |c.attempted| <= c.handled <= |deliveries|
    ensures forall i :: 0 <= i < |c.attempted| ==> Callback(deliveries[i]) == Success(c.attempted[i])
    ensures forall i :: 0 <= i < c.handled - 1 ==> !(i < |postRaises| && postRaises[i])
    ensures c.stoppedBy.None? ==> c.handled == |deliveries| && |c.attempted| == |deliveries|
                                  && forall i :: 0 <= i < |deliveries| ==> !(i < |postRaises| && postRaises[i])
    ensures c.stoppedBy.Some? ==> 1 <= c.handled
    ensures c.stoppedBy == Some(PostConnectionError) ==>
              |c.attempted| == c.handled && c.handled - 1 < |postRaises| && postRaises[c.handled - 1]
    ensures c.stoppedBy.Some? && c.stoppedBy.value.KeyError? ==>
              |c.attempted| == c.handled - 1 && Callback(deliveries[c.handled - 1]) == Failure(c.stoppedBy.value)
    decreases |deliveries|
  {
    if deliveries == [] then
      Consumption([], 0, None)
    else
      match Callback(deliveries[0])
      case Failure(e) => Consumption([], 1, Some(e))
      case Success(post) =>
        if |postRaises| > 0 && postRaises[0] then
          Consumption([post], 1, Some(PostConnectionError))
        else
          var rest := Consume(deliveries[1..], if postRaises == [] then [] else postRaises[1..]);
          Consumption([post] + rest.attempted, 1 + rest.handled, rest.stoppedBy)
  }

  /** With well-formed envelopes and a reachable chat service, every delivery
      gives exactly one post, in queue order, and all are acknowledged. */
  lemma OnePostPerDelivery(deliveries: seq<Envelope>)
    requires forall i :: 0 <= i < |deliveries| ==> Callback(deliveries[i]).Success?
    ensures Consume(deliveries, []).stoppedBy.None?
    ensures |Consume(deliveries, []).attempted| == |deliveries|
    ensures forall i :: 0 <= i < |deliveries| ==>
              Consume(deliveries, []).attempted[i] == Callback(deliveries[i]).value
  {
  }
}
