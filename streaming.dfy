/**
 * `StreamlitUICallbackHandler`: the state machine that receives the model's
 * tokens one at a time and keeps the bot's message on screen up to date. The
 * screen placeholder is the ghost field `lastRendered`, the last display unit
 * written to it.
 */
module Streaming {
  import opened Wrappers
  import opened Text
  import opened Format
  import opened Avatars
  import opened Messages

  /** `"".join(tokens)`: the tokens concatenated in order. */
  function Join(tokens: seq<string>): (r: string)
    ensures tokens != [] ==> tokens[0] <= r
  {
    if tokens == [] then "" else tokens[0] + Join(tokens[1..])
  }

  /** Appending a token to the buffer appends it to the joined text. */
  lemma {:induction false} JoinSnoc(tokens: seq<string>, token: string)
    ensures Join(tokens + [token]) == Join(tokens) + token
  {
    if tokens == [] {
      assert tokens + [token] == [token];
      assert Join([token]) == token + Join([]);
    } else {
      JoinSnoc(tokens[1..], token);
      assert (tokens + [token])[1..] == tokens[1..] + [token];
      assert tokens[0] + (Join(tokens[1..]) + token) == (tokens[0] + Join(tokens[1..])) + token;
    }
  }

  class StreamlitUICallbackHandler {
    var tokenBuffer: seq<string>
    var hasStreamingEnded: bool
    var hasStreamingStarted: bool
    const model: string
    const avatar: Icon
    var finalMessage: string
    ghost var lastRendered: Option<DisplayUnit>

    /** The handler's invariant: while a stream is running, the final message
        is the joined buffer; between streams the buffer is empty; whatever is
        on screen is a bot message with the handler's avatar. (The avatar is
        the model's icon from construction on.) */
    ghost predicate Valid()
      reads this
    {
      && (hasStreamingStarted ==> finalMessage == Join(tokenBuffer))
      && (!hasStreamingStarted ==> tokenBuffer == [])
      && (lastRendered.Some? ==> lastRendered.value.avatar == avatar && lastRendered.value.role == BotRole)
    }

    /** `__init__(model)`: nothing received yet and an empty placeholder. */
    constructor(model: string)
      ensures Valid()
      ensures this.model == model && avatar == ModelIcon(model)
      ensures tokenBuffer == [] && !hasStreamingEnded && !hasStreamingStarted
      ensures finalMessage == "" && lastRendered == None
    {
      tokenBuffer := [];
      hasStreamingEnded := false;
      hasStreamingStarted := false;
      this.model := model;
      avatar := ModelIcon(model);
      finalMessage := "";
      lastRendered := None;
    }

    /** `_get_bot_message_container(text)`: the bot's display unit for `text`. */
    method GetBotMessageContainer(text: string) returns (unit: DisplayUnit)
      ensures unit == DisplayUnit(avatar, BotRole, BotBody(text))
    {
      var formattedText := FormatMessage(Strip(text));
      if formattedText == [] {
        formattedText := Thinking;
      }
      unit := DisplayUnit(avatar, BotRole, formattedText);
    }

    /** `start_loading_message()`: shows the placeholder and changes nothing else. */
    method StartLoadingMessage()
      modifies this
      requires Valid()
      ensures Valid()
      ensures lastRendered == Some(DisplayUnit(avatar, BotRole, Thinking))
      ensures tokenBuffer == old(tokenBuffer) && finalMessage == old(finalMessage)
      ensures hasStreamingStarted == old(hasStreamingStarted) && hasStreamingEnded == old(hasStreamingEnded)
    {
      var loadingMessageContent := GetBotMessageContainer(Thinking);
      LoadingBody();
      lastRendered := Some(loadingMessageContent);
    }

    /** `on_llm_new_token(token)`: appends the token, marks the stream started,
        shows the text so far and keeps it as the final message. */
    method OnLlmNewToken(token: string)
      modifies this
      requires Valid()
      ensures Valid()
      ensures tokenBuffer == old(tokenBuffer) + [token]
      ensures hasStreamingStarted && hasStreamingEnded == old(hasStreamingEnded)
      ensures finalMessage == Join(tokenBuffer)
      ensures old(hasStreamingStarted) ==> finalMessage == old(finalMessage) + token
      ensures !old(hasStreamingStarted) ==> finalMessage == token
      ensures lastRendered == Some(DisplayUnit(avatar, BotRole, BotBody(finalMessage)))
    {
      if !hasStreamingStarted {
        hasStreamingStarted := true;
      }
      JoinSnoc(tokenBuffer, token);
      tokenBuffer := tokenBuffer + [token];
      var completeMessage := Join(tokenBuffer);
      var containerContent := GetBotMessageContainer(completeMessage);
      lastRendered := Some(containerContent);
      finalMessage := Join(tokenBuffer);
    }

    /** `on_llm_end(response)`: empties the buffer and marks the stream ended;
        the final message and the screen stay as they are. */
    method OnLlmEnd()
      modifies this
      requires Valid()
      ensures Valid()
      ensures tokenBuffer == [] && hasStreamingEnded && !hasStreamingStarted
      ensures finalMessage == old(finalMessage) && lastRendered == old(lastRendered)
    {
      tokenBuffer := [];
      hasStreamingEnded := true;
      hasStreamingStarted := false;
    }
  }

  /** For any model, a stream of "Hel" and "lo" leaves "Hello" as the final
      message, and the last render shows "Hello" as the bot's body. */
  method StreamHello(model: string) returns (finalMessage: string, ghost shown: Option<DisplayUnit>)
    ensures finalMessage == "Hello"
    ensures shown.Some? && shown.value.body == "Hello" && shown.value.role == BotRole
  {
    var handler := new StreamlitUICallbackHandler(model);
    handler.StartLoadingMessage();
    handler.OnLlmNewToken("Hel");
    handler.OnLlmNewToken("lo");
    handler.OnLlmEnd();
    finalMessage := handler.finalMessage;
    shown := handler.lastRendered;
    HelloShownAsIs();
  }

  /** The bot shows "Hello" as it is: it needs no escaping, stripping or line
      breaking. */
  lemma HelloShownAsIs()
    ensures BotBody("Hello") == "Hello"
  {
    assert IsPlain("Hello");
    PlainBotBody("Hello");
  }
}
