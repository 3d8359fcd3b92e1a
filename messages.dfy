/**
 * What the chat shows for a message: `message_func` for a whole message and
 * the body of the bot's streaming container. A rendering is a display unit
 * (avatar, role, body). The inline-CSS wrapper around the body is not kept:
 * it depends on the role and on which of the two renders it, and neither
 * template is part of the model.
 */
module Messages {
  import opened Wrappers
  import opened Text
  import opened Html
  import opened Fences
  import opened Format
  import opened Avatars

  /** Who a message comes from: decides the alignment, colour and avatar class. */
  datatype Role = UserRole | BotRole

  /** One rendered message. */
  datatype DisplayUnit = DisplayUnit(avatar: Icon, role: Role, body: string)

  /** `message_func(text, is_user, model=model)`: what it writes, or `None`
      when the stripped text is empty and it writes nothing. */
  function MessageUnit(text: string, isUser: bool, model: string): (r: Option<DisplayUnit>)
    ensures r.Some? ==> r.value.body != []
    ensures r.Some? ==> (r.value.role == UserRole <==> isUser)
  {
    var modelIcon := ModelIcon(model);
    var avatar := if isUser then User else modelIcon;
    var role := if isUser then UserRole else BotRole;
    var messageText := BreakLines(Escape(Strip(text)));
    if messageText != [] then Some(DisplayUnit(avatar, role, messageText)) else None
  }

  /** `message_func` writes nothing exactly when the text is all white space. */
  lemma MessageSilentIff(text: string, isUser: bool, model: string)
    ensures MessageUnit(text, isUser, model).None? <==> forall k :: 0 <= k < |text| ==> IsSpace(text[k])
  {
    StripEmptyIff(text);
    ProseEncoding(Strip(text));
  }

  /** The user's avatar is shown exactly for user messages; a bot message shows
      its model's icon, and the role follows the sender. */
  lemma MessageAvatar(text: string, isUser: bool, model: string)
    requires MessageUnit(text, isUser, model).Some?
    ensures MessageUnit(text, isUser, model).value.avatar == User <==> isUser
    ensures !isUser ==> MessageUnit(text, isUser, model).value.avatar == ModelIcon(model)
    ensures MessageUnit(text, isUser, model).value.role == BotRole <==> !isUser
  {
  }

  /** A shown message body is the stripped text, escaped and with `<br>` for
      its newlines, and nothing else: it reads back as that text alone, with no
      code block (fences in a plain message stay literal), and holds no raw
      newline. */
  lemma MessageBodyReadsBack(text: string, isUser: bool, model: string)
    requires MessageUnit(text, isUser, model).Some?
    ensures ParseProse(MessageUnit(text, isUser, model).value.body) == Some(Blocks([Strip(text)], []))
    ensures '\n' !in MessageUnit(text, isUser, model).value.body
  {
    ParseLastPiece(Strip(text));
    ProseEncoding(Strip(text));
  }

  /** The placeholder body of the bot's container. */
  const Thinking: string := "Thinking..."

  /** The body `_get_bot_message_container(text)` shows: the formatted,
      stripped text, or the placeholder when that is empty. */
  function BotBody(text: string): (r: string)
    ensures r != []
  {
    var formattedText := Formatted(Strip(text));
    if formattedText == [] then Thinking else formattedText
  }

  /** Text with no markup character, newline, backtick or outer white space. */
  predicate IsPlain(s: string) {
    && (forall k :: 0 <= k < |s| ==> !IsMarkupChar(s[k]) && s[k] != '\n' && s[k] != '`')
    && (s != [] ==> !IsSpace(s[0]) && !IsSpace(s[|s| - 1]))
  }

  /** Plain text is stripped and formatted to itself. */
  lemma PlainFormatsToItself(s: string)
    requires IsPlain(s)
    ensures Strip(s) == s && Formatted(s) == s
  {
    StripUnchanged(s);
    assert !HasFencePair(s);
    FormatWithoutFences(s);
    EscapePlain(s);
    BreakLinesPlain(s);
  }

  /** A bot's plain, non-empty text is shown as it is. */
  lemma PlainBotBody(s: string)
    requires IsPlain(s) && s != []
    ensures BotBody(s) == s
  {
    PlainFormatsToItself(s);
  }

  /** The placeholder formats to itself. */
  lemma ThinkingFormatsToItself()
    ensures Strip(Thinking) == Thinking
    ensures Formatted(Thinking) == Thinking
  {
    assert IsPlain(Thinking);
    PlainFormatsToItself(Thinking);
  }

  /** `start_loading_message` shows the placeholder. */
  lemma LoadingBody()
    ensures BotBody(Thinking) == Thinking
  {
    ThinkingFormatsToItself();
  }

  /** The placeholder is shown exactly when the stripped text is empty or is
      the placeholder itself. */
  lemma BotBodyThinkingIff(text: string)
    ensures BotBody(text) == Thinking <==> Strip(text) == [] || Strip(text) == Thinking
  {
    var s := Strip(text);
    FormatEmptyIff(s);
    ThinkingFormatsToItself();
    if Formatted(s) == Thinking {
      FormatInjective(s, Thinking);
    }
  }

  /** A non-blank text's bot body reads back as the split of the stripped text:
      its prose and code pieces in order, every character intact. */
  lemma BotBodyReadsBack(text: string)
    requires Strip(text) != []
    ensures ParseProse(BotBody(text)) == Some(SplitFences(Strip(text)))
  {
    FormatEmptyIff(Strip(text));
    FormatRoundTrip(Strip(text));
  }
}
